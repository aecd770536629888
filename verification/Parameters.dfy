/** Long or non-ASCII header parameters in the continuations of RFC 2231, and what a reader joins them to. */
module Parameters {
  import opened Bytes
  import opened Unicode
  import opened Wrappers

  const MAX_LENGTH := 50
  const PERCENT: Byte := 0x25
  const QUOTE: Byte := 0x22

  /** `utf-8''` */
  const CHARSET: seq<Byte> := [0x75, 0x74, 0x66, HYPHEN, 0x38, 0x27, 0x27]

  datatype Section = Section(text: seq<Byte>, isEncoded: bool)

  // ----- Percent encoding

  predicate IsAttribute(c: Scalar) {
    || 0x30 <= c <= 0x39 || 0x41 <= c <= 0x5a || 0x61 <= c <= 0x7a
    || c == 0x2d || c == 0x5f || c == 0x2e || c == 0x21 || c == 0x7e
  }

  predicate IsLiteral(c: Scalar) {
    c == 0x20 || IsAttribute(c)
  }

  function PercentBytes(u: seq<Byte>): (p: seq<Byte>)
    ensures |p| == 3 * |u|
  {
    if u == [] then [] else [PERCENT, HexDigit(u[0] / 16), HexDigit(u[0] % 16)] + PercentBytes(u[1..])
  }

  /** `percent_encode` of one character. */
  function PercentEncode(c: Scalar): (p: seq<Byte>)
    ensures 1 <= |p| <= 12
  {
    if IsAttribute(c) then [c] else PercentBytes(Utf8(c))
  }

  function PercentAll(s: seq<Scalar>): seq<Byte> {
    if s == [] then [] else PercentAll(s[..|s| - 1]) + PercentEncode(s[|s| - 1])
  }

  // ----- The reader (sections 3, 4 and 4.1)

  function PercentDecode(s: seq<Byte>): Option<seq<Byte>> {
    if s == [] then Some([])
    else if s[0] != PERCENT then
      match PercentDecode(s[1..])
      case None => None
      case Some(rest) => Some([s[0]] + rest)
    else if |s| >= 3 && IsHexDigit(s[1]) && IsHexDigit(s[2]) then
      match PercentDecode(s[3..])
      case None => None
      case Some(rest) => Some([16 * HexValue(s[1]) + HexValue(s[2])] + rest)
    else None
  }

  /** The bytes of one section. The first names the character set if it is an encoded one. */
  function SectionBytes(section: Section, isFirst: bool): Option<seq<Byte>> {
    if !section.isEncoded then Some(section.text)
    else if !isFirst then PercentDecode(section.text)
    else if CHARSET <= section.text then PercentDecode(section.text[|CHARSET|..])
    else None
  }

  /** What the sections stand for together. */
  function Joined(sections: seq<Section>, isFirst: bool): Option<seq<Byte>>
    decreases |sections|
  {
    if sections == [] then Some([])
    else
      match SectionBytes(sections[0], isFirst)
      case None => None
      case Some(bytes) =>
        match Joined(sections[1..], false)
        case None => None
        case Some(rest) => Some(bytes + rest)
  }

  // ----- Percent encoding is undone

  lemma {:induction false} PercentDecodeConcat(a: seq<Byte>, b: seq<Byte>)
    requires PercentDecode(a).Some?
    ensures PercentDecode(a + b) ==
            if PercentDecode(b).None? then None else Some(PercentDecode(a).value + PercentDecode(b).value)
    decreases |a|
  {
    if a == [] {
      assert a + b == b;
      assert PercentDecode(b).Some? ==> [] + PercentDecode(b).value == PercentDecode(b).value;
    } else {
      var n := if a[0] == PERCENT then 3 else 1;
      assert (a + b)[n..] == a[n..] + b;
      PercentDecodeConcat(a[n..], b);
      var first := if n == 1 then a[0] else 16 * HexValue(a[1]) + HexValue(a[2]);
      assert PercentDecode(b).Some? ==>
          [first] + (PercentDecode(a[n..]).value + PercentDecode(b).value) ==
            [first] + PercentDecode(a[n..]).value + PercentDecode(b).value;
    }
  }

  lemma {:induction false} PercentBytesDecode(u: seq<Byte>)
    ensures PercentDecode(PercentBytes(u)) == Some(u)
    decreases |u|
  {
    if u != [] {
      PercentBytesDecode(u[1..]);
      assert PercentBytes(u)[3..] == PercentBytes(u[1..]);
      assert [u[0]] + u[1..] == u;
    }
  }

  lemma {:induction false} PercentDecodePlain(s: seq<Byte>)
    requires |s| == 1 && s[0] != PERCENT
    ensures PercentDecode(s) == Some(s)
  {
    assert s[1..] == [] && [s[0]] + [] == s;
  }

  lemma {:induction false} PercentEncodeDecodes(c: Scalar)
    ensures PercentDecode(PercentEncode(c)) == Some(Utf8(c))
  {
    if IsAttribute(c) {
      var s: seq<Byte> := [c];
      assert Utf8(c) == s && s[0] != PERCENT;
      PercentDecodePlain(s);
    } else {
      PercentBytesDecode(Utf8(c));
    }
  }

  lemma {:induction false} Utf8Last(s: seq<Scalar>)
    requires s != []
    ensures Utf8All(s) == Utf8All(s[..|s| - 1]) + Utf8(s[|s| - 1])
  {
    var last := s[|s| - 1];
    assert s == s[..|s| - 1] + [last];
    Utf8Concat(s[..|s| - 1], [last]);
    assert Utf8All([last]) == Utf8(last) + [];
  }

  lemma {:induction false} PercentAllDecodes(s: seq<Scalar>)
    ensures PercentDecode(PercentAll(s)) == Some(Utf8All(s))
    decreases |s|
  {
    if s != [] {
      PercentAllDecodes(s[..|s| - 1]);
      PercentEncodeDecodes(s[|s| - 1]);
      PercentDecodeConcat(PercentAll(s[..|s| - 1]), PercentEncode(s[|s| - 1]));
      Utf8Last(s);
    }
  }

  // ----- What the sections are: each as long as it can be

  predicate AreLiteral(s: seq<Scalar>) {
    forall k :: 0 <= k < |s| ==> IsLiteral(s[k])
  }

  /**
    * The characters in one section, encoded when they need it. The first names
    * the character set and is always encoded.
    */
  function SectionOf(s: seq<Scalar>, isFirst: bool): Section {
    if isFirst then Section(CHARSET + PercentAll(s), true)
    else if AreLiteral(s) then Section(Utf8All(s), false)
    else Section(PercentAll(s), true)
  }

  predicate Fits(s: seq<Scalar>, isFirst: bool) {
    |SectionOf(s, isFirst).text| < MAX_LENGTH
  }

  /** How many characters fit, `n` or more. */
  function Extent(chars: seq<Scalar>, n: nat, isFirst: bool): (m: nat)
    requires n <= |chars|
    ensures n <= m <= |chars|
    ensures n == 0 && chars != [] && Fits(chars[..1], isFirst) ==> m > 0
    decreases |chars| - n
  {
    if n < |chars| && Fits(chars[..n + 1], isFirst) then Extent(chars, n + 1, isFirst) else n
  }

  function Cut(chars: seq<Scalar>, isFirst: bool): seq<Section>
    decreases |chars|, isFirst
  {
    if chars == [] && !isFirst then []
    else
      OneFits(chars, isFirst);
      var n := Extent(chars, 0, isFirst);
      [SectionOf(chars[..n], isFirst)] + Cut(chars[n..], false)
  }

  lemma {:induction false} OneFits(s: seq<Scalar>, isFirst: bool)
    ensures Fits([], isFirst) && (s != [] ==> Fits(s[..1], isFirst))
  {
    if s != [] {
      var one := s[..1];
      Utf8Last(one);
      assert one[..0] == [] && PercentAll(one[..0]) == [] && Utf8All(one[..0]) == [];
    }
  }

  /** A section that can go out: short enough, of whole characters, and encoded if it is the first. */
  ghost predicate IsGood(section: Section, isFirst: bool) {
    |section.text| < MAX_LENGTH && (isFirst ==> section.isEncoded) &&
    SectionBytes(section, isFirst).Some? && IsUtf8(SectionBytes(section, isFirst).value)
  }

  ghost predicate AreGood(sections: seq<Section>, isFirst: bool) {
    forall k :: 0 <= k < |sections| ==> IsGood(sections[k], isFirst && k == 0)
  }

  lemma {:induction false} SectionStandsFor(s: seq<Scalar>, isFirst: bool)
    ensures SectionBytes(SectionOf(s, isFirst), isFirst) == Some(Utf8All(s)) && IsUtf8(Utf8All(s))
  {
    PercentAllDecodes(s);
    if isFirst {
      assert (CHARSET + PercentAll(s))[|CHARSET|..] == PercentAll(s);
    }
  }

  lemma {:induction false} ExtentFits(chars: seq<Scalar>, n: nat, isFirst: bool)
    requires n <= |chars| && Fits(chars[..n], isFirst)
    ensures Fits(chars[..Extent(chars, n, isFirst)], isFirst)
    decreases |chars| - n
  {
    if n < |chars| && Fits(chars[..n + 1], isFirst) {
      ExtentFits(chars, n + 1, isFirst);
    }
  }

  /** What the reader makes of the sections, and that each can go out. */
  lemma {:induction false} CutIsRead(chars: seq<Scalar>, isFirst: bool)
    ensures Joined(Cut(chars, isFirst), isFirst) == Some(Utf8All(chars))
    ensures AreGood(Cut(chars, isFirst), isFirst)
    decreases |chars|, isFirst
  {
    hide SectionOf, Fits, Extent, Utf8All, AreGood, Joined, Cut;
    if chars == [] && !isFirst {
      NothingIsRead();
    } else {
      var n := Extent(chars, 0, isFirst);
      CutStarts(chars, isFirst);
      CutIsRead(chars[n..], false);
      Utf8Concat(chars[..n], chars[n..]);
      assert chars[..n] + chars[n..] == chars;
      GoodBefore(chars[..n], Cut(chars[n..], false), isFirst);
    }
  }

  lemma {:induction false} NothingIsRead()
    ensures Cut([], false) == [] && Joined([], false) == Some([]) && Utf8All([]) == [] && AreGood([], false)
  {
  }

  lemma {:induction false} CutStarts(chars: seq<Scalar>, isFirst: bool)
    requires chars != [] || isFirst
    ensures var n := Extent(chars, 0, isFirst);
            && Fits(chars[..n], isFirst) && (chars != [] ==> n > 0)
            && Cut(chars, isFirst) == [SectionOf(chars[..n], isFirst)] + Cut(chars[n..], false)
  {
    hide SectionOf, Fits, Extent;
    OneFits(chars, isFirst);
    assert chars[..0] == [];
    ExtentFits(chars, 0, isFirst);
  }

  lemma {:induction false} GoodBefore(s: seq<Scalar>, rest: seq<Section>, isFirst: bool)
    requires Fits(s, isFirst) && AreGood(rest, false) && Joined(rest, false).Some?
    ensures AreGood([SectionOf(s, isFirst)] + rest, isFirst)
    ensures Joined([SectionOf(s, isFirst)] + rest, isFirst) == Some(Utf8All(s) + Joined(rest, false).value)
  {
    hide SectionOf, Fits, SectionBytes, IsGood;
    FirstIsGood(s, isFirst);
    var all := [SectionOf(s, isFirst)] + rest;
    assert all[1..] == rest;
    assert forall k :: 1 <= k < |all| ==> all[k] == rest[k - 1];
  }

  lemma {:induction false} FirstIsGood(s: seq<Scalar>, isFirst: bool)
    requires Fits(s, isFirst)
    ensures IsGood(SectionOf(s, isFirst), isFirst)
    ensures SectionBytes(SectionOf(s, isFirst), isFirst) == Some(Utf8All(s))
  {
    hide SectionBytes, IsUtf8;
    SectionStandsFor(s, isFirst);
  }

  // ----- What fits

  function Spaces(line: seq<Byte>): nat {
    if line == [] then 0 else Spaces(line[..|line| - 1]) + (if line[|line| - 1] == SPACE then 1 else 0)
  }

  /** Encoded, a literal line grows by two characters for each space. */
  lemma {:induction false} LiteralLength(s: seq<Scalar>)
    requires AreLiteral(s)
    ensures |Utf8All(s)| == |s|
    ensures |PercentAll(s)| == |s| + 2 * Spaces(Utf8All(s))
    decreases |s|
  {
    if s != [] {
      LiteralLength(s[..|s| - 1]);
      Utf8Last(s);
      var last := s[|s| - 1];
      assert Utf8(last) == [last];
      assert Utf8All(s)[..|s| - 1] == Utf8All(s[..|s| - 1]);
      assert last == 0x20 ==> |PercentEncode(last)| == 3;
    }
  }

  lemma {:induction false} PercentGrows(s: seq<Scalar>, n: nat)
    requires n <= |s|
    ensures |PercentAll(s[..n])| <= |PercentAll(s)|
    decreases |s|
  {
    if n < |s| {
      PercentGrows(s[..|s| - 1], n);
      assert s[..|s| - 1][..n] == s[..n];
    } else {
      assert s[..n] == s;
    }
  }

  lemma {:induction false} FitsPrefix(s: seq<Scalar>, n: nat, isFirst: bool)
    requires n <= |s| && Fits(s, isFirst)
    ensures Fits(s[..n], isFirst)
  {
    PercentGrows(s, n);
    if AreLiteral(s[..n]) {
      LiteralLength(s[..n]);
    }
    if AreLiteral(s) {
      LiteralLength(s);
    }
  }

  lemma {:induction false} ExtentIs(chars: seq<Scalar>, from: nat, n: nat, isFirst: bool)
    requires from <= n <= |chars| && Fits(chars[..n], isFirst)
    requires n == |chars| || !Fits(chars[..n + 1], isFirst)
    ensures Extent(chars, from, isFirst) == n
    decreases n - from
  {
    hide Fits;
    if from < n {
      FitsPrefix(chars[..n], from + 1, isFirst);
      assert chars[..n][..from + 1] == chars[..from + 1];
      ExtentIs(chars, from + 1, n, isFirst);
    }
  }

  // ----- The program

  /** Printable ASCII without a double quote. */
  predicate IsPlain(s: seq<Scalar>) {
    forall k :: 0 <= k < |s| ==> 0x20 <= s[k] <= 0x7e && s[k] != QUOTE
  }

  /** A character in the line's section needs encoding, and fits. */
  ghost predicate NeedsEncoding(chars: seq<Scalar>, start: nat, goal: nat) {
    start <= goal < |chars| && !IsLiteral(chars[goal]) && Fits(chars[start..goal + 1], false)
  }

  /**
    * The loop of `parameter_sections`: the characters before `start` are in
    * sections, those from there to `index` in the line being filled. A later line
    * is encoded only because of the character at `goal`, which may be still to come.
    */
  ghost predicate IsWriting(chars: seq<Scalar>, sections: seq<Section>, line: seq<Byte>, isEncoded: bool, start: nat,
                            index: nat, goal: nat) {
    && start <= index <= |chars| && |line| < MAX_LENGTH
    && sections + Cut(chars[start..], sections == []) == Cut(chars, true)
    && (isEncoded ==>
          && line == (if sections == [] then CHARSET else []) + PercentAll(chars[start..index])
          && (sections != [] ==> NeedsEncoding(chars, start, goal)))
    && (!isEncoded ==>
          && sections != [] && start < index
          && AreLiteral(chars[start..index]) && line == Utf8All(chars[start..index]))
  }

  lemma {:induction false} WritingStarts(chars: seq<Scalar>)
    ensures IsWriting(chars, [], CHARSET, true, 0, 0, 0)
  {
    assert chars[0..] == chars && chars[0..0] == [];
    assert [] + Cut(chars, true) == Cut(chars, true);
  }

  /** One more character encoded. */
  lemma {:induction false} PercentLast(chars: seq<Scalar>, start: nat, index: nat)
    requires start <= index < |chars|
    ensures PercentAll(chars[start..index + 1]) == PercentAll(chars[start..index]) + PercentEncode(chars[index])
    ensures Utf8All(chars[start..index + 1]) == Utf8All(chars[start..index]) + Utf8(chars[index])
    ensures AreLiteral(chars[start..index]) && IsLiteral(chars[index]) <==> AreLiteral(chars[start..index + 1])
  {
    hide AreLiteral, PercentEncode, Utf8, IsLiteral;
    var s := chars[start..index + 1];
    assert s[..|s| - 1] == chars[start..index] && s[|s| - 1] == chars[index];
    Utf8Last(s);
    LiteralLast(s);
  }

  lemma {:induction false} LiteralLast(s: seq<Scalar>)
    requires s != []
    ensures AreLiteral(s[..|s| - 1]) && IsLiteral(s[|s| - 1]) <==> AreLiteral(s)
  {
    hide IsLiteral;
    var front := s[..|s| - 1];
    assert forall k :: 0 <= k < |front| ==> front[k] == s[k];
  }

  /**
    * With the character at `index` an encoded line that is full has more than
    * fits, and has the character it is encoded for.
    */
  lemma {:induction false} EncodedIsFull(chars: seq<Scalar>, sections: seq<Section>, line: seq<Byte>, start: nat,
                                         index: nat, goal: nat)
    requires IsWriting(chars, sections, line, true, start, index, goal) && index < |chars|
    requires |line| + |PercentEncode(chars[index])| >= MAX_LENGTH
    ensures !Fits(chars[start..index + 1], sections == []) && (sections != [] ==> goal < index)
  {
    hide Cut, PercentEncode;
    PercentLast(chars, start, index);
    if sections != [] {
      if goal >= index {
        GoalFits(chars, start, index, goal);
      }
      assert chars[start..index + 1][goal - start] == chars[goal];
    }
  }

  /** Up to the character it is encoded for, the line has room. */
  lemma {:induction false} GoalFits(chars: seq<Scalar>, start: nat, index: nat, goal: nat)
    requires start <= index <= goal && NeedsEncoding(chars, start, goal)
    ensures |PercentAll(chars[start..index + 1])| < MAX_LENGTH
  {
    var all, n := chars[start..goal + 1], index + 1 - start;
    assert all[..n] == chars[start..index + 1];
    assert !AreLiteral(all) by {
      assert all[goal - start] == chars[goal];
    }
    EncodedPrefix(all, n);
  }

  lemma {:induction false} EncodedPrefix(s: seq<Scalar>, n: nat)
    requires n <= |s| && !AreLiteral(s) && Fits(s, false)
    ensures |PercentAll(s[..n])| < MAX_LENGTH
  {
    hide AreLiteral, PercentAll, Utf8All;
    PercentGrows(s, n);
  }

  /** What of a literal line fits with one more character. */
  lemma {:induction false} LiteralIsFull(chars: seq<Scalar>, sections: seq<Section>, line: seq<Byte>, start: nat,
                                         index: nat, goal: nat)
    requires IsWriting(chars, sections, line, false, start, index, goal) && index < |chars|
    ensures IsLiteral(chars[index]) && |line| + 1 >= MAX_LENGTH ==> !Fits(chars[start..index + 1], false)
    ensures !IsLiteral(chars[index]) ==>
              (Fits(chars[start..index + 1], false) <==>
               |line| + 2 * Spaces(line) + |PercentEncode(chars[index])| < MAX_LENGTH)
  {
    hide Cut, PercentEncode, Spaces;
    PercentLast(chars, start, index);
    LiteralLength(chars[start..index]);
    if IsLiteral(chars[index]) {
      LiteralLength(chars[start..index + 1]);
    }
  }

  lemma {:induction false} LineIsSection(chars: seq<Scalar>, sections: seq<Section>, line: seq<Byte>, isEncoded: bool,
                                         start: nat, index: nat, goal: nat)
    requires IsWriting(chars, sections, line, isEncoded, start, index, goal)
    requires isEncoded && sections != [] ==> goal < index
    ensures Section(line, isEncoded) == SectionOf(chars[start..index], sections == [])
  {
    if isEncoded && sections != [] {
      assert chars[start..index][goal - start] == chars[goal];
    }
  }

  /** The line ends and becomes a section. */
  lemma {:induction false} LineEnds(chars: seq<Scalar>, sections: seq<Section>, line: seq<Byte>, isEncoded: bool,
                                    start: nat, index: nat, goal: nat)
    requires IsWriting(chars, sections, line, isEncoded, start, index, goal)
    requires isEncoded && sections != [] ==> goal < index
    requires start < |chars| || sections == []
    requires index == |chars| || !Fits(chars[start..index + 1], sections == [])
    ensures (sections + [Section(line, isEncoded)]) + Cut(chars[index..], false) == Cut(chars, true)
  {
    LineIsSection(chars, sections, line, isEncoded, start, index, goal);
    WritingFacts(chars, sections, line, isEncoded, start, index, goal);
    var isFirst := sections == [];
    hide SectionOf, IsWriting, Fits, Cut;
    FitsSection(chars[start..index], isFirst);
    CutBegins(chars, start, index, isFirst);
    Regroup(sections, Section(line, isEncoded), Cut(chars[index..], false));
  }

  lemma {:induction false} Regroup(sections: seq<Section>, section: Section, rest: seq<Section>)
    ensures sections + ([section] + rest) == sections + [section] + rest
  {
  }

  lemma {:induction false} FitsSection(s: seq<Scalar>, isFirst: bool)
    ensures Fits(s, isFirst) <==> |SectionOf(s, isFirst).text| < MAX_LENGTH
  {
  }

  /** As many characters as fit become a section, and the rest is cut alone. */
  lemma {:induction false} CutBegins(chars: seq<Scalar>, start: nat, index: nat, isFirst: bool)
    requires start <= index <= |chars| && (start < |chars| || isFirst)
    requires Fits(chars[start..index], isFirst) && (index == |chars| || !Fits(chars[start..index + 1], isFirst))
    ensures Cut(chars[start..], isFirst) == [SectionOf(chars[start..index], isFirst)] + Cut(chars[index..], false)
  {
    hide SectionOf, Fits, Extent;
    var rest, n := chars[start..], index - start;
    assert rest[..n] == chars[start..index] && rest[n..] == chars[index..];
    assert index < |chars| ==> rest[..n + 1] == chars[start..index + 1];
    ExtentIs(rest, 0, n, isFirst);
  }

  lemma {:induction false} EncodedGrows(chars: seq<Scalar>, sections: seq<Section>, line: seq<Byte>, start: nat,
                                        index: nat, goal: nat)
    requires IsWriting(chars, sections, line, true, start, index, goal) && index < |chars|
    requires |line| + |PercentEncode(chars[index])| < MAX_LENGTH
    ensures IsWriting(chars, sections, line + PercentEncode(chars[index]), true, start, index + 1, goal)
  {
    hide Cut, PercentEncode, NeedsEncoding, PercentAll, Utf8All, AreLiteral;
    PercentLast(chars, start, index);
  }

  lemma {:induction false} LiteralGrows(chars: seq<Scalar>, sections: seq<Section>, line: seq<Byte>, start: nat,
                                        index: nat, goal: nat)
    requires IsWriting(chars, sections, line, false, start, index, goal) && index < |chars|
    requires IsLiteral(chars[index]) && |line| + 1 < MAX_LENGTH
    ensures IsWriting(chars, sections, line + [chars[index]], false, start, index + 1, goal)
  {
    hide Cut;
    PercentLast(chars, start, index);
  }

  /** A new line, with the first character of it. */
  lemma {:induction false} LineBegins(chars: seq<Scalar>, sections: seq<Section>, index: nat)
    requires index < |chars| && sections != []
    requires sections + Cut(chars[index..], false) == Cut(chars, true)
    ensures IsLiteral(chars[index]) ==> IsWriting(chars, sections, [chars[index]], false, index, index + 1, index)
    ensures !IsLiteral(chars[index]) ==>
      IsWriting(chars, sections, PercentEncode(chars[index]), true, index, index + 1, index)
    ensures !IsLiteral(chars[index]) ==> IsWriting(chars, sections, [], true, index, index, index)
  {
    hide Cut, PercentEncode;
    assert chars[index..index] == [] && PercentAll([]) == [] && Utf8All([]) == [];
    PercentLast(chars, index, index);
    OneFits(chars[index..], false);
    assert chars[index..][..1] == chars[index..index + 1];
  }

  /** A literal line is given up, to be encoded for the character at `index`. */
  lemma {:induction false} LineRestarts(chars: seq<Scalar>, sections: seq<Section>, line: seq<Byte>, start: nat,
                                        index: nat, goal: nat)
    requires IsWriting(chars, sections, line, false, start, index, goal) && index < |chars|
    requires !IsLiteral(chars[index]) && Fits(chars[start..index + 1], false)
    ensures IsWriting(chars, sections, [], true, start, start, index)
  {
    hide Cut;
    assert chars[start..start] == [];
  }

  lemma {:induction false} WritingFacts(chars: seq<Scalar>, sections: seq<Section>, line: seq<Byte>, isEncoded: bool,
                                        start: nat, index: nat, goal: nat)
    requires IsWriting(chars, sections, line, isEncoded, start, index, goal)
    ensures |line| < MAX_LENGTH && start <= index <= |chars|
    ensures sections + Cut(chars[start..], sections == []) == Cut(chars, true)
    ensures !isEncoded ==> sections != [] && start < index
    ensures sections != [] && index == |chars| ==> start < |chars| && line != [] && (isEncoded ==> goal < index)
    ensures sections == [] ==> line != [] && isEncoded
    ensures |line| > |CHARSET| ==> start < index
  {
    hide Cut, Fits;
    assert chars[index..index] == [] && PercentAll([]) == [];
    if start < index {
      PercentLast(chars, start, index - 1);
    }
  }

  /** A character of a literal line is written as it is. */
  lemma {:induction false} LiteralPiece(c: Scalar)
    requires IsLiteral(c)
    ensures (if c != 0x20 then PercentEncode(c) else [SPACE]) == [c]
  {
  }

  /** The branch of `parameter_sections` for a value that is not plain. */
  method EncodedSections(chars: seq<Scalar>) returns (sections: seq<Section>)
    ensures sections == Cut(chars, true)
  {
    hide IsWriting, Cut, Fits, PercentEncode;
    sections := [];
    var line, isEncoded, sectionStart: nat, index: nat := CHARSET, true, 0, 0;
    ghost var start: nat, goal: nat := 0, 0;
    WritingStarts(chars);
    while index < |chars|
      invariant IsWriting(chars, sections, line, isEncoded, start, index, goal)
      invariant start <= index <= |chars|
      invariant !isEncoded ==> sectionStart == start < index
      decreases |chars| - start, !isEncoded, |chars| - index
    {
      WritingFacts(chars, sections, line, isEncoded, start, index, goal);
      if !isEncoded {
        LiteralIsFull(chars, sections, line, start, index, goal);
      }
      var c := chars[index];
      var piece := if isEncoded || c != 0x20 then PercentEncode(c) else [SPACE];
      if !isEncoded && !IsLiteral(c) {
        if |line| + 2 * Spaces(line) + |piece| >= MAX_LENGTH {
          LineEnds(chars, sections, line, isEncoded, start, index, goal);
          sections := sections + [Section(line, isEncoded)];
          LineBegins(chars, sections, index);
          line, isEncoded, start, goal := [], true, index, index;
        } else {
          LineRestarts(chars, sections, line, start, index, goal);
          line, isEncoded, index, goal := [], true, sectionStart, index;
          continue;
        }
      }
      if |line| + |piece| >= MAX_LENGTH {
        if isEncoded {
          EncodedIsFull(chars, sections, line, start, index, goal);
        } else {
          LiteralPiece(c);
        }
        LineEnds(chars, sections, line, isEncoded, start, index, goal);
        sections := sections + [Section(line, isEncoded)];
        LineBegins(chars, sections, index);
        line, isEncoded, start, goal := [], !IsLiteral(c), index, index;
        assert [] + PercentEncode(c) == PercentEncode(c) && [] + [c] == [c];
        if isEncoded {
          line := line + PercentEncode(c);
        } else {
          line := line + [c];
          sectionStart := index;
        }
      } else {
        if isEncoded {
          EncodedGrows(chars, sections, line, start, index, goal);
        } else {
          LiteralPiece(c);
          LiteralGrows(chars, sections, line, start, index, goal);
        }
        line := line + piece;
      }
      index := index + 1;
    }
    WritingFacts(chars, sections, line, isEncoded, start, index, goal);
    LineEnds(chars, sections, line, isEncoded, start, index, goal);
    CutEnds(chars);
    if line != [] {
      sections := sections + [Section(line, isEncoded)];
    }
  }

  lemma {:induction false} CutEnds(chars: seq<Scalar>)
    ensures Cut(chars[|chars|..], false) == []
  {
  }

  /** A section of a plain value. */
  predicate IsPlainSection(section: Section) {
    !section.isEncoded && 0 < |section.text| <= MAX_LENGTH
  }

  /** Literal sections of 50 characters, and one of what is left. */
  function Chopped(value: seq<Byte>): seq<Section>
    decreases |value|
  {
    if value == [] then []
    else if |value| < MAX_LENGTH then [Section(value, false)]
    else [Section(value[..MAX_LENGTH], false)] + Chopped(value[MAX_LENGTH..])
  }

  lemma {:induction false} ChoppedIsRead(value: seq<Byte>)
    ensures Joined(Chopped(value), false) == Some(value) && Joined(Chopped(value), true) == Some(value)
    ensures forall k :: 0 <= k < |Chopped(value)| ==> IsPlainSection(Chopped(value)[k])
    decreases |value|
  {
    if value != [] {
      var n := if |value| < MAX_LENGTH then |value| else MAX_LENGTH;
      ChoppedIsRead(value[n..]);
      assert value[..n] + value[n..] == value;
      var all, rest := Chopped(value), Chopped(value[n..]);
      assert all[0] == Section(value[..n], false) && all[1..] == rest;
      assert forall k :: 1 <= k < |all| ==> all[k] == rest[k - 1];
    }
  }

  /** The branch for a plain value that is only too long. */
  method PlainSections(value: seq<Byte>) returns (sections: seq<Section>)
    ensures sections == Chopped(value)
  {
    sections := [];
    var rest := value;
    while |rest| >= MAX_LENGTH
      invariant sections + Chopped(rest) == Chopped(value)
      decreases |rest|
    {
      sections := sections + [Section(rest[..MAX_LENGTH], false)];
      rest := rest[MAX_LENGTH..];
    }
    if rest != [] {
      sections := sections + [Section(rest, false)];
    }
  }

  /** `parameter_sections`. */
  method Sections(chars: seq<Scalar>) returns (sections: seq<Section>)
    ensures Joined(sections, true) == Some(Utf8All(chars))
    ensures sections == if IsPlain(chars) then Chopped(Utf8All(chars)) else Cut(chars, true)
    ensures if IsPlain(chars) then forall k :: 0 <= k < |sections| ==> IsPlainSection(sections[k])
            else AreGood(sections, true)
  {
    hide Chopped, Cut, Joined, AreGood;
    if IsPlain(chars) {
      sections := PlainSections(Utf8All(chars));
      ChoppedIsRead(Utf8All(chars));
    } else {
      sections := EncodedSections(chars);
      CutIsRead(chars, true);
    }
  }
}
