/** Header fields folded into lines, counted in UTF-16 units. */
module Folding {
  type Unit = u: int | 0 <= u < 0x1_0000

  const LINE_LENGTH: nat := 76

  const LINE_FEED: Unit := 0x0a
  const RETURN: Unit := 0x0d
  const NEW_LINE: seq<Unit> := [RETURN, LINE_FEED]

  /** What JavaScript calls white space. */
  predicate IsSpace(u: Unit) {
    || 0x09 <= u <= 0x0d || u == 0x20 || u == 0xa0 || u == 0x1680 || 0x2000 <= u <= 0x200a
    || u == 0x2028 || u == 0x2029 || u == 0x202f || u == 0x205f || u == 0x3000 || u == 0xfeff
  }

  predicate IsBreak(u: Unit) {
    u == LINE_FEED || u == RETURN
  }

  predicate HasNoBreak(s: seq<Unit>) {
    forall k :: 0 <= k < |s| ==> !IsBreak(s[k])
  }

  /** A run of spaces starts at `k`, behind something else. */
  predicate RunStartsAt(s: seq<Unit>, k: nat) {
    0 < k < |s| && IsSpace(s[k]) && !IsSpace(s[k - 1])
  }

  // ----- Folded lines

  function Whole(lines: seq<seq<Unit>>): seq<Unit> {
    if lines == [] then [] else lines[0] + Whole(lines[1..])
  }

  predicate EndsItself(line: seq<Unit>) {
    line != [] && IsBreak(line[|line| - 1])
  }

  /** The lines with CRLF after each but the last, unless the header had a break there. */
  function Folded(lines: seq<seq<Unit>>): seq<Unit> {
    if lines == [] then []
    else lines[0] + (if |lines| == 1 || EndsItself(lines[0]) then [] else NEW_LINE) + Folded(lines[1..])
  }

  /** A break the header has in its first 76 units ends the line. */
  predicate IsOwnLine(line: seq<Unit>, window: seq<Unit>) {
    && EndsItself(line) && |line| <= |window|
    && (HasNoBreak(line[..|line| - 1]) ||
        (|line| >= 2 && line[|line| - 2..] == NEW_LINE && HasNoBreak(line[..|line| - 2])))
    && (line[|line| - 1] == RETURN && |line| < |window| ==> window[|line|] != LINE_FEED)
  }

  /** The line ends before the last run of spaces it has room for. Without one, it ends with its word. */
  predicate IsFullLine(line: seq<Unit>, rest: seq<Unit>) {
    && |line| <= |rest|
    && HasNoBreak(line)
    && (|line| < |rest| ==> IsSpace(rest[|line|]))
    && (if |line| < LINE_LENGTH
        then RunStartsAt(rest, |line|) && forall k :: |line| < k < LINE_LENGTH ==> !RunStartsAt(rest, k)
        else (forall k :: 0 < k < |line| ==> !RunStartsAt(rest, k)) &&
             forall k :: LINE_LENGTH <= k < |line| ==> !IsSpace(line[k]))
  }

  predicate IsFirstLine(line: seq<Unit>, after: seq<Unit>) {
    var rest := line + after;
    && line != []
    && if |rest| < LINE_LENGTH then after == []
       else if HasNoBreak(rest[..LINE_LENGTH]) then IsFullLine(line, rest)
       else IsOwnLine(line, rest[..LINE_LENGTH])
  }

  predicate AreLines(lines: seq<seq<Unit>>) {
    lines == [] || (IsFirstLine(lines[0], Whole(lines[1..])) && AreLines(lines[1..]))
  }

  // ----- What `fold` looks for

  function FirstBreak(line: seq<Unit>): (n: nat)
    ensures n <= |line| && HasNoBreak(line[..n]) && (n < |line| ==> IsBreak(line[n]))
  {
    if line == [] || IsBreak(line[0]) then 0
    else
      var n := FirstBreak(line[1..]);
      assert line[..n + 1] == [line[0]] + line[1..][..n];
      n + 1
  }

  lemma {:induction false} BreakIsFound(line: seq<Unit>)
    ensures FirstBreak(line) < |line| <==> !HasNoBreak(line)
  {
    if FirstBreak(line) == |line| {
      assert line[..|line|] == line;
    }
  }

  /** The last space, or -1. */
  function LastSpace(line: seq<Unit>): (n: int)
    ensures -1 <= n < |line| && (n >= 0 ==> IsSpace(line[n]))
    ensures forall k :: n < k < |line| ==> !IsSpace(line[k])
  {
    if line == [] then -1
    else if IsSpace(line[|line| - 1]) then |line| - 1
    else LastSpace(line[..|line| - 1])
  }

  /** The last unit that is no space, or -1. */
  function LastOther(line: seq<Unit>): (n: int)
    ensures -1 <= n < |line| && (n >= 0 ==> !IsSpace(line[n]))
    ensures forall k :: n < k < |line| ==> IsSpace(line[k])
  {
    if line == [] then -1
    else if !IsSpace(line[|line| - 1]) then |line| - 1
    else LastOther(line[..|line| - 1])
  }

  function WordLength(s: seq<Unit>): (n: nat)
    ensures n <= |s| && (n < |s| ==> IsSpace(s[n]))
    ensures forall k :: 0 <= k < n ==> !IsSpace(s[k])
  {
    if s == [] || IsSpace(s[0]) then 0 else 1 + WordLength(s[1..])
  }

  /** How much of the rest goes on a line when it has no break of its own there. */
  function FullLine(rest: seq<Unit>): (length: nat)
    requires |rest| >= LINE_LENGTH && HasNoBreak(rest[..LINE_LENGTH])
    ensures 0 < length <= |rest| && IsFullLine(rest[..length], rest)
  {
    var line, after := rest[..LINE_LENGTH], rest[LINE_LENGTH..];
    var last := LastSpace(line);
    var start := if last < 0 then 0 else LastOther(line[..last]) + 1;
    var length := if start > 0 then start else LINE_LENGTH + WordLength(after);
    assert forall k :: 0 <= k < LINE_LENGTH ==> rest[k] == line[k];
    assert forall k :: LINE_LENGTH <= k < |rest| ==> rest[k] == after[k - LINE_LENGTH];
    length
  }

  /** Through the first break. */
  function OwnLine(rest: seq<Unit>): (length: nat)
    requires |rest| >= LINE_LENGTH && !HasNoBreak(rest[..LINE_LENGTH])
    ensures 0 < length <= LINE_LENGTH && IsOwnLine(rest[..length], rest[..LINE_LENGTH])
  {
    var line := rest[..LINE_LENGTH];
    var at := FirstBreak(line);
    assert at < LINE_LENGTH by { BreakIsFound(line); }
    assert rest[..at] == line[..at];
    var length := if line[at] == RETURN && at + 1 < LINE_LENGTH && line[at + 1] == LINE_FEED then at + 2 else at + 1;
    assert rest[..length][..length - 1] == rest[..length - 1];
    assert length == at + 2 ==> rest[..length][length - 2..] == NEW_LINE && rest[..length][..length - 2] == rest[..at];
    length
  }

  function FirstLine(rest: seq<Unit>): (n: nat)
    ensures n <= |rest| && (rest != [] ==> n > 0 && IsFirstLine(rest[..n], rest[n..]))
  {
    var n := if |rest| < LINE_LENGTH then |rest|
             else if HasNoBreak(rest[..LINE_LENGTH]) then FullLine(rest)
             else OwnLine(rest);
    assert rest[..n] + rest[n..] == rest;
    n
  }

  function Lines(header: seq<Unit>): (lines: seq<seq<Unit>>)
    ensures Whole(lines) == header && AreLines(lines)
    decreases |header|
  {
    if header == [] then []
    else
      var n := FirstLine(header);
      var rest := Lines(header[n..]);
      assert ([header[..n]] + rest)[1..] == rest;
      assert header[..n] + header[n..] == header;
      [header[..n]] + rest
  }

  lemma {:induction false} LinesBegin(header: seq<Unit>)
    requires header != []
    ensures var n := FirstLine(header);
            Folded(Lines(header)) ==
            header[..n] + (if n == |header| || EndsItself(header[..n]) then [] else NEW_LINE) +
              Folded(Lines(header[n..]))
  {
    hide FirstLine, EndsItself, AreLines;
    var n := FirstLine(header);
    var rest := Lines(header[n..]);
    assert Lines(header)[1..] == rest;
    assert rest == [] <==> n == |header| by {
      assert rest == [] ==> Whole(rest) == [];
    }
  }

  lemma {:induction false} FoldsOneLine(rest: seq<Unit>)
    requires |rest| >= LINE_LENGTH
    ensures HasNoBreak(rest[..LINE_LENGTH]) ==>
              var n := FullLine(rest);
              Folded(Lines(rest)) == rest[..n] + (if n == |rest| then [] else NEW_LINE) + Folded(Lines(rest[n..]))
    ensures !HasNoBreak(rest[..LINE_LENGTH]) ==>
              var n := OwnLine(rest);
              Folded(Lines(rest)) == rest[..n] + Folded(Lines(rest[n..]))
  {
    hide Folded, Lines, IsFirstLine, AreLines, FullLine, OwnLine;
    LinesBegin(rest);
    if !HasNoBreak(rest[..LINE_LENGTH]) {
      var n := OwnLine(rest);
      assert rest[..n] + [] == rest[..n];
    }
  }

  /** `fold`. */
  method Fold(header: seq<Unit>) returns (folded: seq<Unit>)
    ensures folded == Folded(Lines(header))
  {
    hide Folded, Lines, IsFirstLine, AreLines, HasNoBreak, IsOwnLine, IsFullLine;
    if |header| < LINE_LENGTH {
      ShortHeader(header);
      return header;
    }
    folded := [];
    var rest := header;
    while rest != []
      invariant folded + Folded(Lines(rest)) == Folded(Lines(header))
      decreases |rest|
    {
      if |rest| < LINE_LENGTH {
        ShortHeader(rest);
        return folded + rest;
      }
      FoldsOneLine(rest);
      var at := FirstBreak(rest[..LINE_LENGTH]);
      BreakIsFound(rest[..LINE_LENGTH]);
      if at < LINE_LENGTH {
        var n := OwnLine(rest);
        folded := folded + rest[..n];
        rest := rest[n..];
      } else {
        var n := FullLine(rest);
        folded := folded + rest[..n];
        if n < |rest| {
          folded := folded + NEW_LINE;
        }
        rest := rest[n..];
      }
    }
    ShortHeader([]);
  }

  lemma {:induction false} ShortHeader(header: seq<Unit>)
    requires |header| < LINE_LENGTH
    ensures Folded(Lines(header)) == header
  {
    if header != [] {
      assert header[..|header|] == header && header[|header|..] == [];
      assert Lines(header) == [header];
      assert [header][1..] == [];
    }
  }

  // ----- The lines are determined by what is said of them

  lemma {:induction false} FullLineEnds(rest: seq<Unit>, n: nat)
    requires n <= |rest| && IsFullLine(rest[..n], rest)
    ensures n < LINE_LENGTH ==> RunStartsAt(rest, n)
    ensures forall k :: LINE_LENGTH <= k < n ==> !IsSpace(rest[k])
  {
    assert forall k :: 0 <= k < n ==> rest[..n][k] == rest[k];
  }

  lemma {:induction false} OneFullLine(rest: seq<Unit>, n: nat, m: nat)
    requires n <= m <= |rest| && |rest| >= LINE_LENGTH
    requires IsFullLine(rest[..n], rest) && IsFullLine(rest[..m], rest)
    ensures n == m
  {
    FullLineEnds(rest, n);
    FullLineEnds(rest, m);
  }

  lemma {:induction false} OwnLineEnds(rest: seq<Unit>, n: nat)
    requires n <= LINE_LENGTH <= |rest| && IsOwnLine(rest[..n], rest[..LINE_LENGTH])
    ensures n > 0 && IsBreak(rest[n - 1])
    ensures forall k :: 0 <= k < n - 2 ==> !IsBreak(rest[k])
    ensures n >= 2 && IsBreak(rest[n - 2]) ==> rest[n - 2] == RETURN && rest[n - 1] == LINE_FEED
    ensures rest[n - 1] == RETURN && n < LINE_LENGTH ==> rest[n] != LINE_FEED
  {
    var line := rest[..n];
    assert forall k :: 0 <= k < n - 1 ==> line[..n - 1][k] == rest[k];
    assert n >= 2 ==> forall k :: 0 <= k < n - 2 ==> line[..n - 2][k] == rest[k];
    assert n >= 2 ==> line[n - 2..][0] == rest[n - 2] && line[n - 2..][1] == rest[n - 1];
  }

  lemma {:induction false} OneOwnLine(rest: seq<Unit>, n: nat, m: nat)
    requires n <= m <= LINE_LENGTH <= |rest|
    requires IsOwnLine(rest[..n], rest[..LINE_LENGTH]) && IsOwnLine(rest[..m], rest[..LINE_LENGTH])
    ensures n == m
  {
    OwnLineEnds(rest, n);
    OwnLineEnds(rest, m);
  }

  lemma {:induction false} OneFirstLine(line: seq<Unit>, after: seq<Unit>, other: seq<Unit>, more: seq<Unit>)
    requires IsFirstLine(line, after) && IsFirstLine(other, more) && line + after == other + more
    ensures line == other && after == more
  {
    hide IsFullLine, IsOwnLine, HasNoBreak;
    var rest := line + after;
    assert rest[..|line|] == line && rest[..|other|] == other;
    var n, m := if |line| <= |other| then |line| else |other|, if |line| <= |other| then |other| else |line|;
    if |rest| >= LINE_LENGTH {
      if HasNoBreak(rest[..LINE_LENGTH]) {
        OneFullLine(rest, n, m);
      } else {
        assert |line| <= LINE_LENGTH && |other| <= LINE_LENGTH by {
          OwnLineFits(line, rest[..LINE_LENGTH]);
          OwnLineFits(other, rest[..LINE_LENGTH]);
        }
        OneOwnLine(rest, n, m);
      }
    }
    assert rest[|line|..] == after && rest[|other|..] == more;
  }

  lemma {:induction false} OwnLineFits(line: seq<Unit>, window: seq<Unit>)
    requires IsOwnLine(line, window)
    ensures |line| <= |window|
  {
  }

  /** There is only one way to cut a header into such lines. */
  lemma {:induction false} LinesAreUnique(lines: seq<seq<Unit>>, others: seq<seq<Unit>>)
    requires AreLines(lines) && AreLines(others) && Whole(lines) == Whole(others)
    ensures lines == others
    decreases |lines|
  {
    if lines == [] || others == [] {
      assert lines != [] ==> Whole(lines) != [] by { if lines != [] { WholeIsEmpty(lines); } }
      assert others != [] ==> Whole(others) != [] by { if others != [] { WholeIsEmpty(others); } }
    } else {
      hide IsFirstLine;
      OneFirstLine(lines[0], Whole(lines[1..]), others[0], Whole(others[1..]));
      LinesAreUnique(lines[1..], others[1..]);
      assert lines == [lines[0]] + lines[1..] && others == [others[0]] + others[1..];
    }
  }

  // ----- Unfolding

  /** Without any CRLF. */
  function Unfolded(s: seq<Unit>): seq<Unit>
    decreases |s|
  {
    if |s| < 2 then s
    else if s[..2] == NEW_LINE then Unfolded(s[2..])
    else [s[0]] + Unfolded(s[1..])
  }

  predicate IsBlank(u: Unit) {
    u == 0x20 || u == 0x09
  }

  /** Section 2.2.3 of RFC 5322: without a CRLF that a space or a tab follows. */
  function UnfoldedByTheStandard(s: seq<Unit>): seq<Unit>
    decreases |s|
  {
    if |s| < 3 then s
    else if s[..2] == NEW_LINE && IsBlank(s[2]) then UnfoldedByTheStandard(s[2..])
    else [s[0]] + UnfoldedByTheStandard(s[1..])
  }

  lemma {:induction false} UnfoldedSkips(line: seq<Unit>, rest: seq<Unit>)
    requires HasNoBreak(line)
    ensures Unfolded(line + rest) == line + Unfolded(rest)
    decreases |line|
  {
    if line == [] {
      assert line + rest == rest;
    } else {
      assert (line + rest)[1..] == line[1..] + rest;
      UnfoldedSkips(line[1..], rest);
      UnfoldedStep(line + rest);
      assert [line[0]] + (line[1..] + Unfolded(rest)) == line + Unfolded(rest);
    }
  }

  lemma {:induction false} UnfoldedStep(s: seq<Unit>)
    requires s != [] && !IsBreak(s[0])
    ensures Unfolded(s) == [s[0]] + Unfolded(s[1..])
    ensures UnfoldedByTheStandard(s) == [s[0]] + UnfoldedByTheStandard(s[1..])
  {
    if |s| == 1 {
      assert s[1..] == [] && s == [s[0]];
    } else {
      assert s[..2][0] == s[0];
      if |s| == 2 {
        assert [s[0]] + s[1..] == s;
      }
    }
  }

  lemma {:induction false} StandardSkips(line: seq<Unit>, rest: seq<Unit>)
    requires HasNoBreak(line)
    ensures UnfoldedByTheStandard(line + rest) == line + UnfoldedByTheStandard(rest)
    decreases |line|
  {
    if line == [] {
      assert line + rest == rest;
    } else {
      assert (line + rest)[1..] == line[1..] + rest;
      StandardSkips(line[1..], rest);
      UnfoldedStep(line + rest);
      assert [line[0]] + (line[1..] + UnfoldedByTheStandard(rest)) == line + UnfoldedByTheStandard(rest);
    }
  }

  lemma {:induction false} CrlfGoes(rest: seq<Unit>)
    ensures Unfolded(NEW_LINE + rest) == Unfolded(rest)
    ensures rest != [] ==> UnfoldedByTheStandard(NEW_LINE + rest) ==
                           (if IsBlank(rest[0]) then UnfoldedByTheStandard(rest)
                            else NEW_LINE + UnfoldedByTheStandard(rest))
  {
    var s := NEW_LINE + rest;
    assert s[..2] == NEW_LINE && s[2..] == rest;
    if rest != [] && !IsBlank(rest[0]) {
      assert s[1..] == [LINE_FEED] + rest;
      assert s[1..][0] == LINE_FEED && s[1..][1..] == rest;
      assert UnfoldedByTheStandard(s[1..]) == [LINE_FEED] + UnfoldedByTheStandard(rest);
      assert [RETURN] + ([LINE_FEED] + UnfoldedByTheStandard(rest)) == NEW_LINE + UnfoldedByTheStandard(rest);
    }
  }

  /** No line has a break, and every line but the first starts with a space. */
  predicate FoldsAtSpaces(lines: seq<seq<Unit>>) {
    && (forall k :: 0 <= k < |lines| ==> lines[k] != [] && HasNoBreak(lines[k]))
    && (forall k :: 1 <= k < |lines| ==> lines[k] != [] && IsSpace(lines[k][0]))
  }

  lemma {:induction false} WholeIsEmpty(lines: seq<seq<Unit>>)
    requires AreLines(lines) && lines != []
    ensures Whole(lines) != [] && lines[0] != [] && Whole(lines)[0] == lines[0][0]
  {
  }

  lemma {:induction false} FirstLineHasNoBreak(line: seq<Unit>, after: seq<Unit>)
    requires IsFirstLine(line, after) && HasNoBreak(line + after)
    ensures HasNoBreak(line) && HasNoBreak(after) && (after != [] ==> IsSpace(after[0]))
  {
    var rest := line + after;
    assert forall k :: 0 <= k < |line| ==> rest[k] == line[k];
    assert forall k :: 0 <= k < |after| ==> rest[|line| + k] == after[k];
    if |rest| >= LINE_LENGTH {
      assert HasNoBreak(rest[..LINE_LENGTH]);
    }
  }

  /** A header without breaks is only broken before spaces. */
  lemma {:induction false} BreaksBeforeSpaces(lines: seq<seq<Unit>>)
    requires AreLines(lines) && HasNoBreak(Whole(lines))
    ensures FoldsAtSpaces(lines)
    decreases |lines|
  {
    if lines != [] {
      hide IsFirstLine, HasNoBreak, IsSpace;
      FirstLineHasNoBreak(lines[0], Whole(lines[1..]));
      assert lines[0] != [] by { WholeIsEmpty(lines); }
      BreaksBeforeSpaces(lines[1..]);
      if |lines| > 1 {
        WholeIsEmpty(lines[1..]);
      }
      assert forall k :: 1 <= k < |lines| ==> lines[k] == lines[1..][k - 1];
    }
  }

  lemma {:induction false} TailFolds(lines: seq<seq<Unit>>)
    requires FoldsAtSpaces(lines) && lines != []
    ensures FoldsAtSpaces(lines[1..]) && HasNoBreak(lines[0]) && lines[0] != [] && !EndsItself(lines[0])
    ensures |lines| > 1 ==> Folded(lines[1..]) != [] && Folded(lines[1..])[0] == lines[1][0]
    ensures Folded(lines) == lines[0] + (if |lines| == 1 then [] else NEW_LINE + Folded(lines[1..]))
  {
    if |lines| > 1 {
      assert lines[1..][0] == lines[1];
    } else {
      assert Folded(lines[1..]) == [];
    }
    assert lines[0] + NEW_LINE + Folded(lines[1..]) == lines[0] + (NEW_LINE + Folded(lines[1..]));
  }

  lemma {:induction false} FoldedUnfolds(lines: seq<seq<Unit>>)
    requires FoldsAtSpaces(lines)
    ensures Unfolded(Folded(lines)) == Whole(lines)
    decreases |lines|
  {
    if lines != [] {
      TailFolds(lines);
      hide FoldsAtSpaces, Folded;
      var rest := Folded(lines[1..]);
      FoldedUnfolds(lines[1..]);
      if |lines| == 1 {
        UnfoldedSkips(lines[0], []);
        assert lines[0] + [] == lines[0] && Whole(lines[1..]) == [];
      } else {
        UnfoldedSkips(lines[0], NEW_LINE + rest);
        CrlfGoes(rest);
      }
    }
  }

  /** Without its CRLFs the folded header is the header. */
  lemma {:induction false} UnfoldsToTheHeader(header: seq<Unit>)
    requires HasNoBreak(header)
    ensures Unfolded(Folded(Lines(header))) == header
  {
    BreaksBeforeSpaces(Lines(header));
    FoldedUnfolds(Lines(header));
  }

  /** Every line but the first starts with what the standard takes for folding white space. */
  predicate FoldsAtBlanks(lines: seq<seq<Unit>>) {
    forall k :: 1 <= k < |lines| ==> lines[k] != [] && IsBlank(lines[k][0])
  }

  lemma {:induction false} StandardLength(s: seq<Unit>)
    ensures |UnfoldedByTheStandard(s)| <= |s|
    decreases |s|
  {
    if |s| >= 3 {
      StandardLength(s[1..]);
      StandardLength(s[2..]);
    }
  }

  /** The standard's unfolding takes back those CRLFs a space or a tab follows. */
  lemma {:induction false} StandardUnfolds(lines: seq<seq<Unit>>)
    requires FoldsAtSpaces(lines)
    ensures FoldsAtBlanks(lines) ==> UnfoldedByTheStandard(Folded(lines)) == Whole(lines)
    ensures !FoldsAtBlanks(lines) ==> |UnfoldedByTheStandard(Folded(lines))| > |Whole(lines)|
    ensures |UnfoldedByTheStandard(Folded(lines))| >= |Whole(lines)|
    decreases |lines|
  {
    if lines != [] {
      TailFolds(lines);
      TailBlanks(lines);
      hide FoldsAtSpaces, Folded, FoldsAtBlanks;
      var rest := Folded(lines[1..]);
      StandardUnfolds(lines[1..]);
      if |lines| == 1 {
        StandardSkips(lines[0], []);
        assert lines[0] + [] == lines[0] && Whole(lines[1..]) == [];
      } else {
        StandardSkips(lines[0], NEW_LINE + rest);
        CrlfGoes(rest);
      }
    }
  }

  lemma {:induction false} TailBlanks(lines: seq<seq<Unit>>)
    requires FoldsAtSpaces(lines) && lines != []
    ensures FoldsAtBlanks(lines) <==> |lines| == 1 || (IsBlank(lines[1][0]) && FoldsAtBlanks(lines[1..]))
  {
    assert forall k :: 1 <= k < |lines| ==> lines[k] == lines[1..][k - 1];
    assert forall k :: 0 <= k < |lines| - 1 ==> lines[1..][k] == lines[k + 1];
  }

  /**
    * The standard's unfolding gives a header back if and only if, cut into its
    * lines, it has none but the first that starts with another of JavaScript's
    * spaces.
    */
  lemma {:induction false} UnfoldsByTheStandard(header: seq<Unit>, lines: seq<seq<Unit>>)
    requires HasNoBreak(header)
    requires AreLines(lines) && Whole(lines) == header
    ensures UnfoldedByTheStandard(Folded(Lines(header))) == header <==> FoldsAtBlanks(lines)
  {
    LinesAreUnique(lines, Lines(header));
    BreaksBeforeSpaces(lines);
    StandardUnfolds(lines);
  }

  lemma {:induction false} TabsAndSpacesOnly(header: seq<Unit>)
    requires HasNoBreak(header)
    requires forall k :: 0 <= k < |header| && IsSpace(header[k]) ==> IsBlank(header[k])
    ensures UnfoldedByTheStandard(Folded(Lines(header))) == header
  {
    hide Lines, Folded;
    var lines := Lines(header);
    BreaksBeforeSpaces(lines);
    forall k | 1 <= k < |lines| ensures lines[k] != [] && IsBlank(lines[k][0]) {
      LineIsWithin(lines, k);
    }
    UnfoldsByTheStandard(header, lines);
  }

  lemma {:induction false} LineIsWithin(lines: seq<seq<Unit>>, k: nat)
    requires k < |lines| && lines[k] != []
    ensures exists j :: 0 <= j < |Whole(lines)| && Whole(lines)[j] == lines[k][0]
  {
    if k == 0 {
      assert Whole(lines)[0] == lines[0][0];
    } else {
      LineIsWithin(lines[1..], k - 1);
      var j :| 0 <= j < |Whole(lines[1..])| && Whole(lines[1..])[j] == lines[k][0];
      assert Whole(lines)[|lines[0]| + j] == lines[k][0];
    }
  }

  /** It does not when the 76th unit is a space of JavaScript alone, behind a word. */
  lemma {:induction false} OtherSpaceIsKept(header: seq<Unit>)
    requires HasNoBreak(header) && |header| >= LINE_LENGTH
    requires IsSpace(header[75]) && !IsBlank(header[75]) && !IsSpace(header[74])
    ensures UnfoldedByTheStandard(Folded(Lines(header))) != header
  {
    var lines := Lines(header);
    var line, after := lines[0], Whole(lines[1..]);
    assert line + after == header;
    assert HasNoBreak(header[..LINE_LENGTH]);
    assert RunStartsAt(header, 75);
    assert |line| == 75;
    assert after[0] == header[75];
    assert |lines| > 1;
    WholeIsEmpty(lines[1..]);
    UnfoldsByTheStandard(header, lines);
  }

  // ----- Characters of two units

  predicate IsHigh(u: Unit) {
    0xd800 <= u < 0xdc00
  }

  predicate IsLow(u: Unit) {
    0xdc00 <= u < 0xe000
  }

  predicate IsPaired(s: seq<Unit>, k: nat)
    requires k < |s|
  {
    && (IsHigh(s[k]) ==> k + 1 < |s| && IsLow(s[k + 1]))
    && (IsLow(s[k]) ==> k > 0 && IsHigh(s[k - 1]))
  }

  /** Surrogates only in pairs. */
  predicate IsUtf16(s: seq<Unit>) {
    forall k :: 0 <= k < |s| ==> IsPaired(s, k)
  }

  lemma {:induction false} Utf16Concat(a: seq<Unit>, b: seq<Unit>)
    requires IsUtf16(a) && IsUtf16(b)
    ensures IsUtf16(a + b)
  {
    forall k | 0 <= k < |a + b| ensures IsPaired(a + b, k) {
      assert k < |a| ==> IsPaired(a, k);
      assert k >= |a| ==> IsPaired(b, k - |a|);
    }
  }

  /** A cut behind a break or before a space is between two characters. */
  lemma {:induction false} Utf16Cut(line: seq<Unit>, after: seq<Unit>)
    requires IsUtf16(line + after)
    requires after == [] || EndsItself(line) || IsSpace(after[0])
    ensures IsUtf16(line) && IsUtf16(after)
  {
    var s := line + after;
    assert after != [] ==> IsPaired(s, |line|);
    assert line != [] ==> IsPaired(s, |line| - 1);
    forall k | 0 <= k < |line| ensures IsPaired(line, k) {
      assert IsPaired(s, k);
    }
    forall k | 0 <= k < |after| ensures IsPaired(after, k) {
      assert IsPaired(s, |line| + k);
    }
  }

  lemma {:induction false} LineIsCut(line: seq<Unit>, after: seq<Unit>)
    requires IsFirstLine(line, after)
    ensures after == [] || EndsItself(line) || IsSpace(after[0])
  {
    assert after != [] ==> (line + after)[|line|] == after[0];
  }

  lemma {:induction false} LinesAreUtf16(lines: seq<seq<Unit>>)
    requires AreLines(lines) && IsUtf16(Whole(lines))
    ensures IsUtf16(Folded(lines))
    decreases |lines|
  {
    if lines != [] {
      hide IsFirstLine, IsUtf16, EndsItself;
      var more := Folded(lines[1..]);
      LineIsCut(lines[0], Whole(lines[1..]));
      Utf16Cut(lines[0], Whole(lines[1..]));
      LinesAreUtf16(lines[1..]);
      NewLineIsUtf16();
      Utf16Concat(lines[0], NEW_LINE);
      Utf16Concat(lines[0] + NEW_LINE, more);
      Utf16Concat(lines[0], more);
      assert lines[0] + [] == lines[0];
    }
  }

  lemma {:induction false} NewLineIsUtf16()
    ensures IsUtf16(NEW_LINE)
  {
  }

  /** No fold comes between the two units of a character. */
  lemma {:induction false} CutsNoCharacter(header: seq<Unit>)
    requires IsUtf16(header)
    ensures IsUtf16(Folded(Lines(header)))
  {
    LinesAreUtf16(Lines(header));
  }
}
