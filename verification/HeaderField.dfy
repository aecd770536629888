/** A header field of encoded words, folded: what a reader unfolds and decodes. */
module HeaderField {
  import opened Bytes
  import opened Unicode
  import opened Wrappers
  import Folding
  import EncodedWords

  const COLON: Byte := 0x3a

  /** ASCII as UTF-16 units. */
  function Widen(s: seq<Byte>): (w: seq<Folding.Unit>)
    ensures |w| == |s| && forall k :: 0 <= k < |s| ==> w[k] == s[k]
  {
    seq(|s|, k requires 0 <= k < |s| => s[k])
  }

  predicate HasSpaceIn(s: seq<Folding.Unit>, k: nat)
    requires k + 76 <= |s|
  {
    exists j :: k <= j < k + 76 && s[j] == SPACE
  }

  /** Printable words of at most 75 characters, a single space between two. */
  predicate IsSpaced(s: seq<Folding.Unit>) {
    && (forall k :: 0 <= k < |s| ==> SPACE <= s[k] < 0x7f)
    && (forall k :: 0 <= k < |s| - 1 && s[k] == SPACE ==> s[k + 1] != SPACE)
    && (forall k :: 0 <= k <= |s| - 76 ==> HasSpaceIn(s, k))
  }

  /** Printable characters other than the space. */
  predicate IsVisible(s: seq<Byte>) {
    forall k :: 0 <= k < |s| ==> SPACE < s[k] < 0x7f
  }

  lemma {:induction false} OneWordIsSpaced(word: seq<Byte>)
    requires IsVisible(word) && |word| <= 75
    ensures IsSpaced(Widen(word))
  {
  }

  lemma {:induction false} WindowHasSpace(s: seq<Folding.Unit>, n: nat, tail: seq<Folding.Unit>, k: nat)
    requires 0 < n <= 76 && |s| == n + |tail| && s[n - 1] == SPACE && s[n..] == tail
    requires IsSpaced(tail) && k <= |s| - 76
    ensures HasSpaceIn(s, k)
  {
    if k < n {
      assert s[n - 1] == SPACE;
    } else {
      assert HasSpaceIn(tail, k - n);
      var j :| k - n <= j < k - n + 76 && tail[j] == SPACE;
      assert s[n + j] == s[n..][j];
    }
  }

  lemma {:induction false} SpacesApart(s: seq<Folding.Unit>, n: nat, tail: seq<Folding.Unit>, k: nat)
    requires 0 < n && |s| == n + |tail| && s[n..] == tail
    requires IsSpaced(tail) && tail != [] && tail[0] != SPACE && forall j :: 0 <= j < n - 1 ==> s[j] != SPACE
    requires k < |s| - 1 && s[k] == SPACE
    ensures s[k + 1] != SPACE
  {
    assert k >= n ==> s[k] == tail[k - n];
    assert k >= n - 1 ==> s[k + 1] == tail[k + 1 - n];
  }

  lemma {:induction false} WordBeforeIsSpaced(word: seq<Byte>, rest: seq<Byte>)
    requires IsVisible(word) && 0 < |word| <= 75
    requires IsSpaced(Widen(rest)) && rest != [] && rest[0] != SPACE
    ensures IsSpaced(Widen(word + [SPACE] + rest))
  {
    var s, tail := Widen(word + [SPACE] + rest), Widen(rest);
    var n := |word| + 1;
    assert s[n..] == tail;
    forall k | 0 <= k <= |s| - 76 ensures HasSpaceIn(s, k) {
      WindowHasSpace(s, n, tail, k);
    }
    forall k | 0 <= k < |s| - 1 && s[k] == SPACE ensures s[k + 1] != SPACE {
      SpacesApart(s, n, tail, k);
    }
    forall k | 0 <= k < |s| ensures SPACE <= s[k] < 0x7f {
      assert k >= n ==> s[k] == tail[k - n];
    }
  }

  lemma {:induction false} WordIsVisible(encoding: EncodedWords.Encoding, text: seq<Byte>)
    requires EncodedWords.IsWord(encoding, text)
    ensures var word := EncodedWords.Open(encoding) + text + EncodedWords.CLOSE;
            IsVisible(word) && 0 < |word| <= 75 && word[0] != SPACE
  {
    hide EncodedWords.WordBytes;
  }

  lemma {:induction false} LineIsSpaced(encoding: EncodedWords.Encoding, texts: seq<seq<Byte>>)
    requires texts != [] && EncodedWords.AreWords(encoding, texts)
    ensures var line := EncodedWords.Line(encoding, texts);
            IsSpaced(Widen(line)) && line != [] && line[0] != SPACE
    decreases |texts|
  {
    hide IsSpaced, IsVisible, EncodedWords.IsWord, EncodedWords.Open;
    var word := EncodedWords.Open(encoding) + texts[0] + EncodedWords.CLOSE;
    WordIsVisible(encoding, texts[0]);
    if |texts| == 1 {
      assert EncodedWords.Line(encoding, texts) == word + [] == word;
      OneWordIsSpaced(word);
    } else {
      var rest := EncodedWords.Line(encoding, texts[1..]);
      LineIsSpaced(encoding, texts[1..]);
      WordBeforeIsSpaced(word, rest);
      assert EncodedWords.Line(encoding, texts) == word + ([SPACE] + rest) == word + [SPACE] + rest;
    }
  }

  lemma {:induction false} NoLongLine(line: seq<Folding.Unit>, after: seq<Folding.Unit>)
    requires Folding.IsFirstLine(line, after) && IsSpaced(line + after)
    ensures |line| <= 76 && IsSpaced(after)
  {
    var rest := line + after;
    if |line| > 76 {
      assert HasSpaceIn(rest, 1);
      var j :| 1 <= j < 77 && rest[j] == SPACE;
      assert Folding.RunStartsAt(rest, j);
    }
    assert forall k :: 0 <= k < |after| ==> rest[|line| + k] == after[k];
    forall k | 0 <= k <= |after| - 76 ensures HasSpaceIn(after, k) {
      assert HasSpaceIn(rest, |line| + k);
      var j :| |line| + k <= j < |line| + k + 76 && rest[j] == SPACE;
      assert after[j - |line|] == SPACE;
    }
  }

  lemma {:induction false} LinesFit(lines: seq<seq<Folding.Unit>>)
    requires Folding.AreLines(lines) && IsSpaced(Folding.Whole(lines))
    ensures forall k :: 0 <= k < |lines| ==> |lines[k]| <= 76
    decreases |lines|
  {
    if lines != [] {
      hide IsSpaced, Folding.IsFirstLine;
      NoLongLine(lines[0], Folding.Whole(lines[1..]));
      LinesFit(lines[1..]);
      assert forall k :: 1 <= k < |lines| ==> lines[k] == lines[1..][k - 1];
    }
  }

  /**
    * A field whose value is encoded words. Unfolded and decoded it says what was
    * written, and no line of it is longer than the 76 characters of section 2 of
    * RFC 2047.
    */
  method Field(name: seq<Byte>, s: seq<Scalar>, encoding: EncodedWords.Encoding)
    returns (value: seq<Byte>, field: seq<Folding.Unit>, ghost lines: seq<seq<Folding.Unit>>)
    requires IsVisible(name) && |name| < 75
    ensures EncodedWords.DecodeLine(value) == Some(Utf8All(s))
    ensures Folding.UnfoldedByTheStandard(field) == Widen(name + [COLON] + [SPACE] + value)
    ensures field == Folding.Folded(lines) && forall k :: 0 <= k < |lines| ==> |lines[k]| <= 76
  {
    hide IsSpaced, EncodedWords.DecodeLine, Folding.Folded, Folding.Lines, Folding.AreLines;
    ghost var words;
    value, words := EncodedWords.EncodeWord(s, encoding);
    LineIsSpaced(encoding, words);
    WordBeforeIsSpaced(name + [COLON], value);
    var header := Widen(name + [COLON] + [SPACE] + value);
    field := Folding.Fold(header);
    lines := Folding.Lines(header);
    LinesFit(lines);
    SpacesOnly(header);
  }

  lemma {:induction false} SpacesOnly(header: seq<Folding.Unit>)
    requires IsSpaced(header)
    ensures Folding.UnfoldedByTheStandard(Folding.Folded(Folding.Lines(header))) == header
  {
    hide Folding.UnfoldedByTheStandard, Folding.Folded, Folding.Lines;
    Folding.TabsAndSpacesOnly(header);
  }

  // ----- Message IDs, which are never encoded

  /** `Message-ID: ` */
  const MESSAGE_ID: seq<Folding.Unit> := [0x4d, 0x65, 0x73, 0x73, 0x61, 0x67, 0x65, 0x2d, 0x49, 0x44, 0x3a, 0x20]

  const LESS: Folding.Unit := 0x3c
  const GREATER: Folding.Unit := 0x3e

  predicate IsControl(u: Folding.Unit) {
    u <= 0x08 || u == 0x0b || u == 0x0c || 0x0e <= u <= 0x1f || u == 0x7f
  }

  /** `without_line_breaks`. */
  function WithoutBreaks(s: seq<Folding.Unit>): (w: seq<Folding.Unit>)
    ensures Folding.HasNoBreak(w)
    decreases |s|
  {
    if s == [] then []
    else if |s| >= 2 && s[..2] == Folding.NEW_LINE then [0x20] + WithoutBreaks(s[2..])
    else [if Folding.IsBreak(s[0]) then 0x20 else s[0]] + WithoutBreaks(s[1..])
  }

  function WithoutControls(s: seq<Folding.Unit>): (w: seq<Folding.Unit>)
    ensures Folding.HasNoBreak(s) ==> Folding.HasNoBreak(w)
  {
    if s == [] then [] else (if IsControl(s[0]) then [] else [s[0]]) + WithoutControls(s[1..])
  }

  /** `in_angle_brackets`. */
  function Bracketed(id: seq<Folding.Unit>): seq<Folding.Unit> {
    var marked := if id != [] && id[0] == LESS then id else [LESS] + id;
    if marked[|marked| - 1] == GREATER then marked else marked + [GREATER]
  }

  /** The field as it is folded. */
  function MessageIdField(id: seq<Folding.Unit>): seq<Folding.Unit> {
    MESSAGE_ID + Bracketed(WithoutControls(WithoutBreaks(id)))
  }

  lemma {:induction false} FieldHasNoBreak(id: seq<Folding.Unit>)
    ensures Folding.HasNoBreak(MessageIdField(id))
  {
    hide WithoutControls, WithoutBreaks;
  }

  /** Without the CRLFs of its folds the field is the field; by the standard it is when it folds at blanks only. */
  lemma {:induction false} MessageIdUnfolds(id: seq<Folding.Unit>)
    ensures var field := MessageIdField(id);
            && Folding.HasNoBreak(field)
            && Folding.Unfolded(Folding.Folded(Folding.Lines(field))) == field
            && (Folding.UnfoldedByTheStandard(Folding.Folded(Folding.Lines(field))) == field <==>
                Folding.FoldsAtBlanks(Folding.Lines(field)))
  {
    hide Folding.Lines, Folding.Folded, Folding.Unfolded, Folding.UnfoldedByTheStandard, Folding.FoldsAtBlanks;
    hide Folding.HasNoBreak, Folding.AreLines, Folding.Whole, MessageIdField;
    var field := MessageIdField(id);
    FieldHasNoBreak(id);
    Folding.UnfoldsToTheHeader(field);
    Folding.UnfoldsByTheStandard(field, Folding.Lines(field));
  }

  lemma {:induction false} CleanStays(id: seq<Folding.Unit>)
    requires forall k :: 0 <= k < |id| ==> !Folding.IsBreak(id[k]) && !IsControl(id[k])
    ensures WithoutControls(WithoutBreaks(id)) == id
    decreases |id|
  {
    if id != [] {
      CleanStays(id[1..]);
      assert |id| >= 2 ==> id[..2][0] == id[0];
      assert WithoutBreaks(id) == [id[0]] + WithoutBreaks(id[1..]);
      assert WithoutBreaks(id)[1..] == WithoutBreaks(id[1..]);
      assert [id[0]] + id[1..] == id;
    }
  }

  /** An ID of 62 letters and a no-break space is not what a reader by the standard gets. */
  lemma {:induction false} NoBreakSpaceIsKept() returns (id: seq<Folding.Unit>)
    ensures |id| == 63 && id[62] == 0xa0 && forall k :: 0 <= k < 62 ==> id[k] == 0x61
    ensures var field := MessageIdField(id);
            Folding.UnfoldedByTheStandard(Folding.Folded(Folding.Lines(field))) != field
  {
    id := seq(63, k => if k == 62 then 0xa0 else 0x61);
    CleanStays(id);
    var field := MessageIdField(id);
    assert field == MESSAGE_ID + ([LESS] + id + [GREATER]);
    assert field[75] == id[62] && field[74] == id[61];
    MessageIdUnfolds(id);
    Folding.OtherSpaceIsKept(field);
  }
}
