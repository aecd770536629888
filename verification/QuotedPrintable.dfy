/** Quoted-printable, section 6.7 of RFC 2045: the encoder, its line wrapping, and the decoder of the standard. */
module QuotedPrintable {
  import opened Bytes
  import opened Escapes
  import opened Unicode
  import opened Wrappers

  const LINE_LENGTH := 76
  const MARGIN := 25
  const SOFT_BREAK: seq<Byte> := [EQUALS, CR, LF]

  // ----- The standard's decoder

  /** What the decoder reads next, and the bytes it stands for. */
  datatype Piece = Piece(length: nat, bytes: seq<Byte>)

  /** A character, a soft line break or an escape. `None` for an `=` that starts neither. */
  function FirstPiece(s: seq<Byte>): (p: Option<Piece>)
    requires s != []
    ensures p.Some? ==> 1 <= p.value.length <= |s|
  {
    if s[0] != EQUALS then Some(Piece(1, [s[0]]))
    else if SOFT_BREAK <= s then Some(Piece(3, []))
    else if EscapeAt(s, 0).Some? then Some(Piece(3, [EscapeAt(s, 0).value]))
    else None
  }

  function Decode(s: seq<Byte>): Option<seq<Byte>> {
    if s == [] then Some([])
    else match FirstPiece(s)
      case None => None
      case Some(Piece(length, bytes)) =>
        match Decode(s[length..])
        case None => None
        case Some(rest) => Some(bytes + rest)
  }

  /** The text without its soft line breaks. */
  function Unwrapped(s: seq<Byte>): seq<Byte> {
    if s == [] then []
    else if SOFT_BREAK <= s then Unwrapped(s[3..])
    else [s[0]] + Unwrapped(s[1..])
  }

  /** How many bytes of the line come before position `at`. */
  function Column(s: seq<Byte>, at: nat): (c: nat)
    requires at <= |s|
    ensures c <= at
  {
    if at == 0 || s[at - 1] == LF then 0 else Column(s, at - 1) + 1
  }

  predicate IsLineEnd(s: seq<Byte>, at: nat)
    requires at < |s|
  {
    s[at] == LF || (s[at] == CR && at + 1 < |s| && s[at + 1] == LF)
  }

  /** No line has more than 76 characters, the `=` of a soft break included. */
  predicate FitsLines(s: seq<Byte>) {
    forall at :: 0 <= at < |s| && !IsLineEnd(s, at) ==> Column(s, at) < LINE_LENGTH
  }

  /** No line ends in white space, which a mail server may drop. */
  predicate HasNoTrailingBlank(s: seq<Byte>) {
    forall at :: 0 <= at < |s| && (s[at] == SPACE || s[at] == TAB) ==>
      at + 1 < |s| && s[at + 1] != CR && s[at + 1] != LF
  }

  predicate SoftBreakAt(s: seq<Byte>, at: nat) {
    at + 3 <= |s| && s[at] == EQUALS && s[at + 1] == CR && s[at + 2] == LF
  }

  /** No soft break is followed by the rest of a character. */
  predicate BreaksBetweenCharacters(s: seq<Byte>) {
    forall at :: 0 <= at < |s| && SoftBreakAt(s, at) ==> !ContinuationAt(s, at + 3)
  }

  /** A CR and the LF after it stay together. */
  predicate BreaksOutsideLineEnds(s: seq<Byte>) {
    forall at :: 1 <= at && at + 3 < |s| && SoftBreakAt(s, at) && s[at - 1] == CR ==> s[at + 3] != LF
  }

  /** No soft break follows another, so each of them ends a line of text. */
  predicate SoftBreaksApart(s: seq<Byte>) {
    forall at :: 0 <= at < |s| && SoftBreakAt(s, at) ==> !SoftBreakAt(s, at + 3)
  }

  /** CR and LF are never escaped. */
  predicate LineEndsUnescaped(s: seq<Byte>) {
    forall at :: 0 <= at < |s| && EscapeAt(s, at).Some? ==> EscapeAt(s, at).value != CR && EscapeAt(s, at).value != LF
  }

  // ----- The encoder

  predicate IsKept(text: seq<Byte>, i: nat)
    requires i < |text|
  {
    var b := text[i];
    if b == SPACE || b == TAB then i + 1 < |text| && text[i + 1] != LF && text[i + 1] != CR
    else b == LF || b == CR || 0x21 <= b <= 0x3c || 0x3e <= b <= 0x7e
  }

  function Token(text: seq<Byte>, i: nat): (t: seq<Byte>)
    requires i < |text|
    ensures IsToken(t, text[i])
  {
    if IsKept(text, i) then [text[i]] else Escape(text[i])
  }

  function Tokens(text: seq<Byte>): (tokens: seq<seq<Byte>>)
    ensures AreTokens(tokens, text)
  {
    seq(|text|, i requires 0 <= i < |text| => Token(text, i))
  }

  /** The text before it is wrapped. */
  function Encoded(text: seq<Byte>): seq<Byte> {
    Flatten(Tokens(text))
  }

  lemma {:induction false} DecodeStep(t: seq<Byte>, b: Byte, rest: seq<Byte>)
    requires IsToken(t, b) && (|t| == 1 ==> t[0] == b)
    ensures Decode(t + rest) == if Decode(rest).None? then None else Some([b] + Decode(rest).value)
  {
    if |t| == 1 {
      assert (t + rest)[1..] == rest;
    } else {
      assert (t + rest)[3..] == rest;
      assert EscapeAt(t + rest, 0) == EscapeAt(t, 0);
    }
  }

  lemma {:induction false} DecodesTokens(tokens: seq<seq<Byte>>, text: seq<Byte>)
    requires AreTokens(tokens, text)
    requires forall i :: 0 <= i < |text| && |tokens[i]| == 1 ==> tokens[i][0] == text[i]
    ensures Decode(Flatten(tokens)) == Some(text)
    decreases |tokens|
  {
    if tokens != [] {
      DecodesTokens(tokens[1..], text[1..]);
      assert IsToken(tokens[0], text[0]);
      DecodeStep(tokens[0], text[0], Flatten(tokens[1..]));
      assert [text[0]] + text[1..] == text;
    }
  }

  /** Nothing of the text is lost in the encoding, and no line of it ends in white space. */
  lemma {:induction false} EncodedDecodes(text: seq<Byte>)
    ensures Decode(Encoded(text)) == Some(text) && IsEscaped(Encoded(text))
    ensures HasNoTrailingBlank(Encoded(text)) && LineEndsUnescaped(Encoded(text)) && IsSevenBit(Encoded(text))
  {
    DecodesTokens(Tokens(text), text);
    EscapedTokens(Tokens(text), text);
    SevenBitTokens(Tokens(text), text);
    forall at | 0 <= at < |Encoded(text)| && EscapeAt(Encoded(text), at).Some?
      ensures EscapeAt(Encoded(text), at).value != CR && EscapeAt(Encoded(text), at).value != LF
    {
      var p := TokenOf(Tokens(text), text, at);
      EscapeOfToken(Tokens(text), text, p);
    }
    forall at | 0 <= at < |Encoded(text)| && (Encoded(text)[at] == SPACE || Encoded(text)[at] == TAB)
      ensures at + 1 < |Encoded(text)| && Encoded(text)[at + 1] != CR && Encoded(text)[at + 1] != LF
    {
      BlankIsFollowed(text, at);
    }
  }

  lemma {:induction false} BlankIsFollowed(text: seq<Byte>, at: nat)
    requires at < |Encoded(text)| && (Encoded(text)[at] == SPACE || Encoded(text)[at] == TAB)
    ensures at + 1 < |Encoded(text)| && Encoded(text)[at + 1] != CR && Encoded(text)[at + 1] != LF
  {
    var tokens, all := Tokens(text), Encoded(text);
    EscapedTokens(tokens, text);
    BoundaryAtPlain(all, at);
    var p := BoundaryBetween(tokens, text, at);
    assert tokens[..|text|] == tokens;
    FlattenTwo(tokens, p);
    assert all[at..][0] == tokens[p][0];
    assert tokens[p] == Token(text, p);
    assert p + 1 < |text| && tokens[p + 1] == Token(text, p + 1);
    assert all[at..][1] == tokens[p + 1][0];
  }

  lemma {:induction false} BoundaryAtPlain(s: seq<Byte>, at: nat)
    requires IsEscaped(s) && at < |s| && s[at] != EQUALS && !IsHexDigit(s[at])
    ensures IsBoundary(s, at)
  {
    assert at >= 1 && s[at - 1] == EQUALS ==> EscapeAt(s, at - 1).Some?;
    assert at >= 2 && s[at - 2] == EQUALS ==> EscapeAt(s, at - 2).Some?;
  }

  lemma {:induction false} FlattenTwo(tokens: seq<seq<Byte>>, p: nat)
    requires p < |tokens|
    ensures Flatten(tokens[p..]) == tokens[p] + Flatten(tokens[p + 1..])
    ensures p + 1 < |tokens| ==> Flatten(tokens[p..]) == tokens[p] + (tokens[p + 1] + Flatten(tokens[p + 2..]))
  {
    assert tokens[p..][1..] == tokens[p + 1..];
    if p + 1 < |tokens| {
      assert tokens[p + 1..][1..] == tokens[p + 2..];
    }
  }

  lemma {:induction false} EncodedIsWhole(s: seq<Scalar>)
    ensures IsWhole(Encoded(Utf8All(s)))
  {
    WholeTokens(Tokens(Utf8All(s)), s);
  }

  // ----- Where a line ends

  function FindCrlf(s: seq<Byte>, from: nat): (at: Option<nat>)
    requires from <= |s|
    ensures at.Some? ==> from <= at.value && at.value + 2 <= |s| && s[at.value] == CR && s[at.value + 1] == LF
    ensures forall k :: from <= k < (if at.Some? then at.value else |s| - 1) ==> !(s[k] == CR && s[k + 1] == LF)
    decreases |s| - from
  {
    if from + 2 > |s| then None
    else if s[from] == CR && s[from + 1] == LF then Some(from)
    else FindCrlf(s, from + 1)
  }

  /** The last LF at or after `from`. */
  function LastLf(s: seq<Byte>, from: nat): (at: Option<nat>)
    requires from <= |s|
    ensures at.Some? ==> from <= at.value < |s| && s[at.value] == LF
  {
    if |s| == from then None
    else if s[|s| - 1] == LF then Some(|s| - 1)
    else LastLf(s[..|s| - 1], from)
  }

  predicate IsStop(b: Byte) {
    b in [SPACE, TAB, DOT, 0x2c, 0x21, 0x3f]
  }

  /** The last space or punctuation mark at or after `from`. */
  function LastStop(s: seq<Byte>, from: nat): (at: Option<nat>)
    requires from <= |s|
    ensures at.Some? ==> from <= at.value < |s| && IsStop(s[at.value])
    ensures forall k :: (if at.Some? then at.value + 1 else from) <= k < |s| ==> !IsStop(s[k])
  {
    if |s| == from then None
    else if IsStop(s[|s| - 1]) then Some(|s| - 1)
    else LastStop(s[..|s| - 1], from)
  }

  function TailStart(window: seq<Byte>): (at: nat)
    ensures at <= |window|
  {
    if |window| < MARGIN then 0 else |window| - MARGIN
  }

  /** Where a line break of the text ends the line. */
  function HardBreak(window: seq<Byte>): (length: Option<nat>)
    requires window != []
    ensures length.Some? ==> 0 < length.value <= |window| && window[length.value - 1] == LF
    ensures length.None? ==> window[|window| - 1] != LF
    ensures forall k :: 0 <= k < |window| - 1 && window[k] == CR && window[k + 1] == LF ==>
      length.Some? && length.value <= k + 2
  {
    match FindCrlf(window, 0)
    case Some(at) => Some(at + 2)
    case None =>
      if window[|window| - 1] == LF then Some(|window|)
      else
        match LastLf(window, TailStart(window))
        case Some(at) => if CR in window[at..] then None else Some(at + 1)
        case None => None
  }

  /** Where to cut a line that ends with an escape, whole or not. */
  function CutEscape(line: seq<Byte>): (at: Option<nat>)
    ensures at.Some? ==> at.value <= |line|
  {
    var n := |line|;
    if n >= 1 && line[n - 1] == EQUALS then Some(n - 1)
    else if n >= 2 && line[n - 2] == EQUALS && IsHexDigit(line[n - 1]) then Some(n - 2)
    else if n >= 3 && EscapeAt(line, n - 3).Some? then Some(n)
    else None
  }

  /** The byte of an escape that ends the line. */
  function TrailingEscape(line: seq<Byte>): Option<Byte> {
    if |line| < 3 then None else EscapeAt(line, |line| - 3)
  }

  predicate IsEscapesOnly(line: seq<Byte>) {
    |line| in [3, 6, 9, 12] && forall k :: 0 <= k < |line| / 3 ==> EscapeAt(line, 3 * k).Some?
  }

  /** A cut that leaves escapes and characters in one piece. */
  ghost predicate IsCleanCut(rest: seq<Byte>, at: nat) {
    IsBoundary(rest, at) && (IsWhole(rest) ==> !ContinuationAt(rest, at))
  }

  lemma {:induction false} CutEscapeIsBoundary(rest: seq<Byte>, n: nat)
    requires IsEscaped(rest) && n <= |rest|
    ensures match CutEscape(rest[..n])
            case Some(at) => IsBoundary(rest, at) && n - 2 <= at && (n == |rest| ==> at == n)
            case None => IsBoundary(rest, n) && (n > 0 ==> IsBoundary(rest, n - 1) && rest[n - 1] != EQUALS)
  {
    assert forall k :: 0 <= k < |rest| && rest[k] == EQUALS ==> EscapeAt(rest, k).Some?;
    assert forall k :: 0 <= k && k + 3 <= n ==> EscapeAt(rest[..n], k) == EscapeAt(rest, k);
  }

  /** No escape ends at the cut, or one of an ASCII byte: the cut is not inside a character. */
  lemma {:induction false} CleanAfterAscii(rest: seq<Byte>, at: nat)
    requires IsBoundary(rest, at)
    requires at < 3 || EscapeAt(rest, at - 3).None? || EscapeAt(rest, at - 3).value < 0x80
    ensures IsCleanCut(rest, at)
  {
    assert IsWhole(rest) && ContinuationAt(rest, at) ==> IsWholeAt(rest, at);
  }

  /** The last escapes before `start`, at most three, are those of continuation bytes. */
  ghost predicate HasBackedUp(rest: seq<Byte>, start: nat, steps: nat) {
    && steps <= 3 && 3 * steps <= start
    && (steps >= 1 ==> ContinuationAt(rest, start - 3))
    && (steps >= 2 ==> ContinuationAt(rest, start - 6))
    && (steps >= 3 ==> ContinuationAt(rest, start - 9))
  }

  /** The escapes of a character that would be cut move to the next line. */
  method BackUp(rest: seq<Byte>, start: nat) returns (length: nat)
    requires IsEscaped(rest) && IsBoundary(rest, start) && 0 < start
    requires start == |rest| || start >= 74
    ensures 0 < length <= start && IsCleanCut(rest, length)
    ensures length == start < |rest| ==> EscapeAt(rest, start - 3).None? || EscapeAt(rest, start - 3).value < 0x80
    ensures IsWhole(rest) ==> length + 12 >= start
  {
    hide EscapeAt, IsEscaped, IsWhole;
    length := start;
    ghost var steps: nat := 0;
    while length > 3 && length < |rest|
      invariant 0 < length == start - 3 * steps && IsBoundary(rest, length)
      invariant start == |rest| ==> steps == 0
      invariant IsWhole(rest) ==> HasBackedUp(rest, start, steps)
    {
      var line := rest[..length];
      TrailingOf(rest, length);
      if IsEscapesOnly(line) {
        break;
      }
      var trailing := TrailingEscape(line);
      if trailing == None || trailing.value < 0x80 {
        CleanAfterAscii(rest, length);
        return;
      }
      length := length - 3;
      EscapeBehindEscape(rest, length);
      if trailing.value >= 0xc0 {
        return;
      }
      steps := steps + 1;
      if IsWhole(rest) {
        WholeThere(rest, start - 3);
      }
    }
    NothingAtTheEnd(rest);
  }

  lemma {:induction false} TrailingOf(rest: seq<Byte>, length: nat)
    requires 3 <= length <= |rest|
    ensures TrailingEscape(rest[..length]) == EscapeAt(rest, length - 3)
    ensures EscapeAt(rest, length - 3).Some? ==> rest[length - 3] == EQUALS
  {
  }

  /** The line for a window without a line break of the text. */
  method LineLength(rest: seq<Byte>, window: seq<Byte>) returns (length: nat)
    requires rest != [] && IsEscaped(rest)
    requires window == if |rest| < LINE_LENGTH then rest else rest[..LINE_LENGTH]
    ensures 0 < length <= |window| && IsCleanCut(rest, length)
    ensures length == LINE_LENGTH && length < |rest| ==>
      IsCleanCut(rest, length - if TrailingEscape(window).Some? then 3 else 1)
    ensures forall k :: LINE_LENGTH - MARGIN <= k < |window| && IsStop(window[k]) ==> length > k
    ensures IsWhole(rest) && length < |rest| ==> length > |window| - MARGIN
  {
    assert rest[..|window|] == window;
    CutEscapeIsBoundary(rest, |window|);
    var stop := if |window| > LINE_LENGTH - MARGIN then LastStop(window, TailStart(window)) else None;
    var cut := CutEscape(window);
    length := |window|;
    if stop != None {
      length := stop.value + 1;
      AfterPlain(rest, length);
      BeforePlain(rest, stop.value);
    } else if cut != None {
      length := BackUp(rest, cut.value);
      if length == LINE_LENGTH < |rest| {
        assert EscapeAt(window, LINE_LENGTH - 3) == EscapeAt(rest, LINE_LENGTH - 3);
        EscapeBehindEscape(rest, LINE_LENGTH - 3);
      }
    } else if |window| == LINE_LENGTH {
      assert EscapeAt(window, LINE_LENGTH - 3) == EscapeAt(rest, LINE_LENGTH - 3);
      CleanAfterAscii(rest, length);
      BeforePlain(rest, length - 1);
    }
    if length == 0 {
      length := |window|;
    }
  }

  /** Where the next line ends, and whether it takes a soft break. */
  method NextLine(rest: seq<Byte>) returns (length: nat, soft: bool)
    requires rest != [] && IsEscaped(rest)
    ensures 0 < length <= |rest| && length <= LINE_LENGTH && IsCleanCut(rest, length)
    ensures !soft ==> length == |rest| || rest[length - 1] == LF
    ensures soft ==> length < |rest| && length < LINE_LENGTH
    ensures soft ==> !(rest[length - 1] == CR && rest[length] == LF)
    ensures forall k :: 0 <= k < |rest| - 1 && k < LINE_LENGTH - 1 && rest[k] == CR && rest[k + 1] == LF ==>
      !soft && length <= k + 2
    ensures soft && IsWhole(rest) ==> length > (if |rest| < LINE_LENGTH then |rest| else LINE_LENGTH) - MARGIN
    ensures soft ==> forall k :: LINE_LENGTH - MARGIN <= k < LINE_LENGTH && k < |rest| && IsStop(rest[k]) ==>
              length >= k + 1 || length == k == LINE_LENGTH - 1
  {
    var window := if |rest| < LINE_LENGTH then rest else rest[..LINE_LENGTH];
    var hard := HardBreak(window);
    if hard != None {
      length, soft := hard.value, false;
      AfterPlain(rest, length);
      return;
    }
    length := LineLength(rest, window);
    soft := length < |rest| && window[length - 1] != LF;
    if soft && length == LINE_LENGTH {
      length := length - if TrailingEscape(window).Some? then 3 else 1;
    }
    assert soft && rest[length - 1] == CR ==> window[length - 1] == CR && window[length] == rest[length];
  }

  /** Before a character that is no `=` and no digit of an escape every cut is clean. */
  lemma {:induction false} BeforePlain(rest: seq<Byte>, at: nat)
    requires IsEscaped(rest) && at < |rest| && rest[at] != EQUALS
    requires !IsHexDigit(rest[at]) || (IsBoundary(rest, at) && IsBoundary(rest, at + 1))
    ensures IsCleanCut(rest, at)
  {
    assert at >= 1 && rest[at - 1] == EQUALS ==> EscapeAt(rest, at - 1).Some?;
    assert at >= 2 && rest[at - 2] == EQUALS ==> EscapeAt(rest, at - 2).Some?;
  }

  /** After a character that is no hexadecimal digit and no `=` every cut is clean. */
  lemma {:induction false} AfterPlain(rest: seq<Byte>, at: nat)
    requires IsEscaped(rest) && 0 < at <= |rest| && rest[at - 1] != EQUALS && !IsHexDigit(rest[at - 1])
    ensures IsCleanCut(rest, at)
  {
    assert at >= 2 && rest[at - 2] == EQUALS ==> EscapeAt(rest, at - 2).Some?;
    CleanAfterAscii(rest, at);
  }

  // ----- Decoding and unwrapping piece by piece

  lemma {:induction false} FirstPieceOf(a: seq<Byte>, b: seq<Byte>)
    requires a != [] && FirstPiece(a).Some?
    ensures FirstPiece(a + b) == FirstPiece(a)
    ensures SOFT_BREAK <= a + b <==> SOFT_BREAK <= a
    ensures (a + b)[FirstPiece(a).value.length..] == a[FirstPiece(a).value.length..] + b
  {
    if a[0] == EQUALS {
      assert (a + b)[..3] == a[..3];
    }
  }

  lemma {:induction false} DecodeConcat(a: seq<Byte>, b: seq<Byte>)
    requires Decode(a).Some?
    ensures Decode(a + b) == if Decode(b).None? then None else Some(Decode(a).value + Decode(b).value)
    decreases |a|
  {
    hide FirstPiece;
    if a == [] {
      assert a + b == b;
      assert Decode(b).Some? ==> [] + Decode(b).value == Decode(b).value;
    } else {
      FirstPieceOf(a, b);
      var Piece(n, bytes) := FirstPiece(a).value;
      DecodeConcat(a[n..], b);
      assert Decode(b).Some? ==>
        bytes + (Decode(a[n..]).value + Decode(b).value) == bytes + Decode(a[n..]).value + Decode(b).value;
    }
  }

  lemma {:induction false} UnwrappedConcat(a: seq<Byte>, b: seq<Byte>)
    requires Decode(a).Some?
    ensures Unwrapped(a + b) == Unwrapped(a) + Unwrapped(b)
    decreases |a|
  {
    if a == [] {
      assert a + b == b;
    } else {
      FirstPieceOf(a, b);
      UnwrappedConcat(a[FirstPiece(a).value.length..], b);
      if a[0] == EQUALS && !(SOFT_BREAK <= a) {
        UnwrappedEscape(a + b);
        UnwrappedEscape(a);
        assert (a + b)[..3] == a[..3];
      }
    }
  }

  lemma {:induction false} UnwrappedEscape(s: seq<Byte>)
    requires EscapeAt(s, 0).Some?
    ensures Unwrapped(s) == s[..3] + Unwrapped(s[3..])
  {
    assert s[1..][1..] == s[2..] && s[2..][1..] == s[3..];
    assert Unwrapped(s[2..]) == [s[2]] + Unwrapped(s[3..]);
    assert Unwrapped(s[1..]) == [s[1]] + Unwrapped(s[2..]);
    assert s[..3] == [s[0], s[1], s[2]];
  }

  lemma {:induction false} EscapedDecodes(s: seq<Byte>)
    requires IsEscaped(s)
    ensures Decode(s).Some? && Unwrapped(s) == s
    decreases |s|
  {
    if s != [] {
      var n := if s[0] == EQUALS then 3 else 1;
      if s[0] == EQUALS {
        assert EscapeAt(s, 0).Some?;
        UnwrappedEscape(s);
      }
      forall k | 0 <= k < |s| - n && s[n..][k] == EQUALS
        ensures EscapeAt(s[n..], k).Some?
      {
        assert EscapeAt(s, n + k).Some?;
      }
      EscapedDecodes(s[n..]);
      assert s[..n] + s[n..] == s;
    }
  }

  /** A piece that is no soft break is kept, and decodes alone as it does in front of the rest. */
  lemma {:induction false} PieceAlone(s: seq<Byte>)
    requires s != [] && FirstPiece(s).Some? && !(SOFT_BREAK <= s)
    ensures var Piece(n, bytes) := FirstPiece(s).value;
            Unwrapped(s) == s[..n] + Unwrapped(s[n..]) && Decode(s[..n]) == Some(bytes)
  {
    var Piece(n, bytes) := FirstPiece(s).value;
    if n == 3 {
      UnwrappedEscape(s);
    }
    assert FirstPiece(s[..n]) == FirstPiece(s) by {
      assert n == 3 ==> EscapeAt(s[..n], 0) == EscapeAt(s, 0);
      assert SOFT_BREAK <= s[..n] ==> SOFT_BREAK <= s;
    }
    assert s[..n][n..] == [] && bytes + [] == bytes;
  }

  lemma {:induction false} DecodeFirst(s: seq<Byte>)
    requires s != [] && Decode(s).Some?
    ensures FirstPiece(s).Some? && Decode(s[FirstPiece(s).value.length..]).Some?
    ensures Decode(s).value == FirstPiece(s).value.bytes + Decode(s[FirstPiece(s).value.length..]).value
  {
  }

  lemma {:induction false} SoftBreakAlone(s: seq<Byte>)
    requires SOFT_BREAK <= s
    ensures FirstPiece(s) == Some(Piece(3, [])) && Unwrapped(s) == Unwrapped(s[3..])
  {
  }

  /** Soft line breaks mean nothing to the decoder. */
  lemma {:induction false} UnwrappedDecodes(s: seq<Byte>)
    requires Decode(s).Some?
    ensures Decode(Unwrapped(s)) == Decode(s)
    decreases |s|
  {
    if s == [] {
      assert Unwrapped(s) == [];
    } else {
      hide Decode, Unwrapped, FirstPiece;
      DecodeFirst(s);
      var Piece(n, bytes) := FirstPiece(s).value;
      UnwrappedDecodes(s[n..]);
      if SOFT_BREAK <= s {
        SoftBreakAlone(s);
        assert [] + Decode(s[n..]).value == Decode(s[n..]).value;
      } else {
        PieceAlone(s);
        DecodeConcat(s[..n], Unwrapped(s[n..]));
      }
    }
  }

  // ----- Lines that fit

  lemma {:induction false} ColumnOfPrefix(w: seq<Byte>, more: seq<Byte>, at: nat)
    requires at <= |w|
    ensures Column(w + more, at) == Column(w, at)
  {
    if at > 0 {
      ColumnOfPrefix(w, more, at - 1);
    }
  }

  lemma {:induction false} ColumnOnNewLine(w: seq<Byte>, line: seq<Byte>, k: nat)
    requires w == [] || w[|w| - 1] == LF
    requires k <= |line|
    ensures Column(w + line, |w| + k) <= k
  {
    if k > 0 {
      ColumnOnNewLine(w, line, k - 1);
    }
  }

  lemma {:induction false} FitsNewLine(w: seq<Byte>, line: seq<Byte>)
    requires w == [] || w[|w| - 1] == LF
    requires FitsLines(w) && forall k :: LINE_LENGTH <= k < |line| ==> IsLineEnd(line, k)
    ensures FitsLines(w + line)
  {
    forall at | 0 <= at < |w + line| && !IsLineEnd(w + line, at)
      ensures Column(w + line, at) < LINE_LENGTH
    {
      if at < |w| {
        ColumnOfPrefix(w, line, at);
        assert !IsLineEnd(w, at);
      } else {
        ColumnOnNewLine(w, line, at - |w|);
        assert !IsLineEnd(line, at - |w|);
      }
    }
  }

  // ----- The wrapping loop

  /** What a wrapped text promises. */
  ghost predicate IsWrapped(e: seq<Byte>, w: seq<Byte>) {
    && FitsLines(w) && HasNoTrailingBlank(w) && BreaksOutsideLineEnds(w) && SoftBreaksApart(w)
    && LineEndsUnescaped(w) && IsSevenBit(w)
    && (IsWhole(e) ==> BreaksBetweenCharacters(w))
  }

  /** The loop in between: `w` is written and `rest` is to come. */
  ghost predicate IsUnderway(e: seq<Byte>, w: seq<Byte>, rest: seq<Byte>) {
    && Decode(w).Some? && Unwrapped(w) + rest == e
    && IsEscaped(rest) && HasNoTrailingBlank(rest) && LineEndsUnescaped(rest) && IsSevenBit(rest)
    && (IsWhole(e) ==> IsWhole(rest) && !ContinuationAt(rest, 0))
    && (w == [] || w[|w| - 1] == LF || rest == [])
    && (|w| >= 4 && SoftBreakAt(w, |w| - 3) && w[|w| - 4] == CR && rest != [] ==> rest[0] != LF)
    && IsWrapped(e, w)
  }

  /** The line of `length` bytes with its soft break, if it has one. */
  function Line(rest: seq<Byte>, length: nat, soft: bool): seq<Byte>
    requires length <= |rest|
  {
    rest[..length] + if soft then SOFT_BREAK else []
  }

  ghost predicate IsLineCut(rest: seq<Byte>, length: nat, soft: bool) {
    && 0 < length <= |rest| && length <= LINE_LENGTH && IsCleanCut(rest, length)
    && (!soft ==> length == |rest| || rest[length - 1] == LF)
    && (soft ==> length < |rest| && length < LINE_LENGTH && !(rest[length - 1] == CR && rest[length] == LF))
  }

  lemma {:induction false} LineDecodes(rest: seq<Byte>, length: nat, soft: bool)
    requires IsEscaped(rest) && IsLineCut(rest, length, soft)
    ensures Decode(Line(rest, length, soft)).Some? && Unwrapped(Line(rest, length, soft)) == rest[..length]
    ensures IsEscaped(rest[length..]) &&
      (IsWhole(rest) ==> IsWhole(rest[length..]) && !ContinuationAt(rest[length..], 0))
  {
    EscapedParts(rest, length);
    EscapedDecodes(rest[..length]);
    assert SOFT_BREAK[3..] == [];
    DecodeConcat(rest[..length], if soft then SOFT_BREAK else []);
    UnwrappedConcat(rest[..length], if soft then SOFT_BREAK else []);
    EscapesInSuffix(rest, length);
    if IsWhole(rest) {
      WholeSuffix(rest, length);
    }
  }

  lemma {:induction false} AddLine(e: seq<Byte>, w: seq<Byte>, rest: seq<Byte>, length: nat, soft: bool)
    requires rest != [] && IsUnderway(e, w, rest) && IsLineCut(rest, length, soft)
    ensures IsUnderway(e, w + Line(rest, length, soft), rest[length..])
  {
    hide FitsLines, HasNoTrailingBlank, BreaksOutsideLineEnds, SoftBreaksApart, LineEndsUnescaped, IsSevenBit;
    hide BreaksBetweenCharacters, Decode, Unwrapped, IsWhole, IsEscaped, IsCleanCut;
    var line := Line(rest, length, soft);
    LineDecodes(rest, length, soft);
    LineIsShort(rest, length, soft);
    DecodeConcat(w, line);
    UnwrappedConcat(w, line);
    assert rest[..length] + rest[length..] == rest;
    FitsNewLine(w, line);
    AddLineBlanks(w, rest, length, soft);
    AddLineBreaks(e, w, rest, length, soft);
    AddLineEscapes(w, rest, length, soft);
  }

  lemma {:induction false} LineIsShort(rest: seq<Byte>, length: nat, soft: bool)
    requires IsLineCut(rest, length, soft)
    ensures forall k :: LINE_LENGTH <= k < |Line(rest, length, soft)| ==> IsLineEnd(Line(rest, length, soft), k)
  {
  }

  lemma {:induction false} AddLineBlanks(w: seq<Byte>, rest: seq<Byte>, length: nat, soft: bool)
    requires HasNoTrailingBlank(w) && HasNoTrailingBlank(rest) && IsLineCut(rest, length, soft)
    ensures HasNoTrailingBlank(w + Line(rest, length, soft)) && HasNoTrailingBlank(rest[length..])
  {
    var all := w + Line(rest, length, soft);
    forall at | 0 <= at < |all| && (all[at] == SPACE || all[at] == TAB)
      ensures at + 1 < |all| && all[at + 1] != CR && all[at + 1] != LF
    {
      if at < |w| {
        assert w[at] == all[at];
      } else {
        assert at - |w| < length && rest[at - |w|] == all[at];
      }
    }
    forall at | 0 <= at < |rest| - length && (rest[length..][at] == SPACE || rest[length..][at] == TAB)
      ensures at + 1 < |rest| - length && rest[length..][at + 1] != CR && rest[length..][at + 1] != LF
    {
      assert rest[length + at] == rest[length..][at];
    }
  }

  /** A soft break of the longer text is one of the text before or the one just added. */
  lemma {:induction false} SoftBreaksOf(w: seq<Byte>, rest: seq<Byte>, length: nat, soft: bool, at: nat)
    requires w == [] || w[|w| - 1] == LF
    requires IsEscaped(rest) && IsLineCut(rest, length, soft)
    requires SoftBreakAt(w + Line(rest, length, soft), at)
    ensures SoftBreakAt(w, at) || (soft && at == |w| + length)
  {
    var all := w + Line(rest, length, soft);
    EqualsStartsEscape(rest, length);
    assert w != [] ==> all[|w| - 1] == w[|w| - 1];
    assert forall k :: 0 <= k < length ==> all[|w| + k] == rest[k];
  }

  lemma {:induction false} EqualsStartsEscape(rest: seq<Byte>, length: nat)
    requires IsEscaped(rest) && IsBoundary(rest, length)
    ensures forall k :: 0 <= k < length && rest[k] == EQUALS ==> k + 2 < length && rest[k + 1] != CR
  {
    forall k | 0 <= k < length && rest[k] == EQUALS
      ensures k + 2 < length && rest[k + 1] != CR
    {
      assert EscapeAt(rest, k).Some?;
    }
  }

  lemma {:induction false} AddLineBreaks(e: seq<Byte>, w: seq<Byte>, rest: seq<Byte>, length: nat, soft: bool)
    requires rest != [] && IsUnderway(e, w, rest) && IsLineCut(rest, length, soft)
    ensures var all := w + Line(rest, length, soft);
            && BreaksOutsideLineEnds(all) && SoftBreaksApart(all)
            && (IsWhole(e) ==> BreaksBetweenCharacters(all))
            && (all[|all| - 1] == LF || length == |rest|)
            && (|all| >= 4 && SoftBreakAt(all, |all| - 3) && all[|all| - 4] == CR && length < |rest| ==>
                rest[length] != LF)
  {
    hide FitsLines, HasNoTrailingBlank, LineEndsUnescaped, Decode, Unwrapped, IsWhole, IsEscaped, IsBoundary;
    var all := w + Line(rest, length, soft);
    if |all| >= 4 && SoftBreakAt(all, |all| - 3) {
      SoftBreaksOf(w, rest, length, soft, |all| - 3);
    }
    forall at | 0 <= at < |all| && SoftBreakAt(all, at)
      ensures at >= 1 && at + 3 < |all| && all[at - 1] == CR ==> all[at + 3] != LF
      ensures IsWhole(e) ==> !ContinuationAt(all, at + 3)
      ensures !SoftBreakAt(all, at + 3)
    {
      SoftBreaksOf(w, rest, length, soft, at);
      if SoftBreakAt(all, at + 3) {
        SoftBreaksOf(w, rest, length, soft, at + 3);
      }
      if SoftBreakAt(w, at) {
        assert at + 3 == |w| ==> EscapeAt(all, at + 3) == EscapeAt(Line(rest, length, soft), 0);
      }
    }
  }

  lemma {:induction false} AddLineEscapes(w: seq<Byte>, rest: seq<Byte>, length: nat, soft: bool)
    requires w == [] || w[|w| - 1] == LF
    requires LineEndsUnescaped(w) && LineEndsUnescaped(rest) && IsEscaped(rest) && IsLineCut(rest, length, soft)
    ensures LineEndsUnescaped(w + Line(rest, length, soft)) && LineEndsUnescaped(rest[length..])
    ensures IsSevenBit(w) && IsSevenBit(rest) ==> IsSevenBit(w + Line(rest, length, soft)) && IsSevenBit(rest[length..])
  {
    hide IsWhole;
    var all := w + Line(rest, length, soft);
    EqualsStartsEscape(rest, length);
    EscapesInSuffix(rest, length);
    forall at | 0 <= at < |all| && EscapeAt(all, at).Some?
      ensures EscapeAt(all, at).value != CR && EscapeAt(all, at).value != LF
    {
      if at < |w| {
        assert w[|w| - 1] == all[|w| - 1];
        assert EscapeAt(w, at) == EscapeAt(all, at);
      } else {
        assert at - |w| < length;
        assert EscapeAt(rest, at - |w|) == EscapeAt(all, at);
      }
    }
  }

  /** `wrap` of the program. */
  method Wrap(encoded: seq<Byte>) returns (wrapped: seq<Byte>)
    requires IsEscaped(encoded) && HasNoTrailingBlank(encoded) && LineEndsUnescaped(encoded)
    requires IsSevenBit(encoded)
    requires IsWhole(encoded) ==> !ContinuationAt(encoded, 0)
    ensures Unwrapped(wrapped) == encoded && Decode(wrapped) == Decode(encoded)
    ensures IsWrapped(encoded, wrapped)
  {
    if |encoded| <= LINE_LENGTH {
      EscapedDecodes(encoded);
      assert forall at :: 0 <= at < |encoded| ==> !SoftBreakAt(encoded, at) by {
        assert forall at :: 0 <= at < |encoded| && encoded[at] == EQUALS ==> EscapeAt(encoded, at).Some?;
      }
      return encoded;
    }
    wrapped := [];
    var rest := encoded;
    while rest != []
      invariant IsUnderway(encoded, wrapped, rest)
      decreases |rest|
    {
      var length, soft := NextLine(rest);
      AddLine(encoded, wrapped, rest, length, soft);
      wrapped := wrapped + Line(rest, length, soft);
      rest := rest[length..];
    }
    assert Unwrapped(wrapped) + [] == Unwrapped(wrapped);
    UnwrappedDecodes(wrapped);
  }

  /** `quoted_printable`: the loop over the bytes of the text, then the wrapping. */
  method Encode(text: seq<Byte>) returns (wrapped: seq<Byte>)
    ensures Decode(wrapped) == Some(text) && Unwrapped(wrapped) == Encoded(text)
    ensures FitsLines(wrapped) && HasNoTrailingBlank(wrapped)
    ensures BreaksOutsideLineEnds(wrapped) && SoftBreaksApart(wrapped) && LineEndsUnescaped(wrapped)
    ensures IsSevenBit(wrapped)
    ensures IsUtf8(text) ==> BreaksBetweenCharacters(wrapped)
  {
    var encoded := [];
    for i := 0 to |text|
      invariant encoded == Flatten(Tokens(text)[..i])
    {
      FlattenConcat(Tokens(text)[..i], [Token(text, i)]);
      assert Tokens(text)[..i + 1] == Tokens(text)[..i] + [Token(text, i)];
      assert Flatten([Token(text, i)]) == Token(text, i);
      if IsKept(text, i) {
        encoded := encoded + [text[i]];
      } else {
        encoded := encoded + Escape(text[i]);
      }
    }
    assert Tokens(text)[..|text|] == Tokens(text);
    EncodedDecodes(text);
    if IsUtf8(text) {
      var s :| text == Utf8All(s);
      EncodedIsWhole(s);
    }
    if IsWhole(encoded) {
      StartsBetween(encoded);
    }
    wrapped := Wrap(encoded);
  }

  lemma {:induction false} StartsBetween(s: seq<Byte>)
    requires IsWhole(s)
    ensures !ContinuationAt(s, 0)
  {
    assert s != [] && ContinuationAt(s, 0) ==> IsWholeAt(s, 0);
  }
}
