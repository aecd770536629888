/**
  * Text in which a byte may be written as `=` and two hexadecimal digits, as
  * quoted-printable and the Q encoding of RFC 2047 have it.
  */
module Escapes {
  import opened Bytes
  import opened Unicode
  import opened Wrappers

  function Escape(b: Byte): (e: seq<Byte>)
    ensures |e| == 3 && e[0] == EQUALS && EscapeAt(e, 0) == Some(b)
  {
    [EQUALS, HexDigit(b / 16), HexDigit(b % 16)]
  }

  /** The byte an `=XX` at `index` stands for. */
  function EscapeAt(s: seq<Byte>, index: nat): (b: Option<Byte>)
    ensures b.Some? <==> index + 3 <= |s| && s[index] == EQUALS && IsHexDigit(s[index + 1]) && IsHexDigit(s[index + 2])
  {
    if index + 3 <= |s| && s[index] == EQUALS && IsHexDigit(s[index + 1]) && IsHexDigit(s[index + 2]) then
      Some(16 * HexValue(s[index + 1]) + HexValue(s[index + 2]))
    else None
  }

  lemma {:induction false} NothingAtTheEnd(s: seq<Byte>)
    ensures EscapeAt(s, |s|).None?
  {
  }

  predicate ContinuationAt(s: seq<Byte>, index: nat) {
    EscapeAt(s, index).Some? && IsContinuation(EscapeAt(s, index).value)
  }

  predicate LeadAt(s: seq<Byte>, index: nat) {
    EscapeAt(s, index).Some? && EscapeAt(s, index).value >= 0xc0
  }

  /** Every `=` starts an escape. */
  predicate IsEscaped(s: seq<Byte>) {
    forall k :: 0 <= k < |s| && s[k] == EQUALS ==> EscapeAt(s, k).Some?
  }

  /** Whether a cut at `at` leaves every escape on one side. */
  predicate IsBoundary(s: seq<Byte>, at: nat) {
    && at <= |s|
    && (at >= 1 ==> s[at - 1] != EQUALS)
    && (at >= 2 ==> s[at - 2] != EQUALS)
  }

  predicate IsWholeAt(s: seq<Byte>, k: nat) {
    EscapeAt(s, k).Some? ==>
      && (EscapeAt(s, k).value < 0xc0 || EscapeAt(s, k).value >= 0xc2)
      && (ContinuationAt(s, k) ==> IsLeadBehind(s, k))
  }

  predicate IsLeadBehind(s: seq<Byte>, k: nat) {
    || (k >= 3 && LeadAt(s, k - 3))
    || (k >= 6 && ContinuationAt(s, k - 3) && LeadAt(s, k - 6))
    || (k >= 9 && ContinuationAt(s, k - 3) && ContinuationAt(s, k - 6) && LeadAt(s, k - 9))
  }

  /** The escapes of UTF-8: behind the escape of a continuation byte its character is there from its start. */
  predicate IsWhole(s: seq<Byte>) {
    forall k :: 0 <= k < |s| ==> IsWholeAt(s, k)
  }

  lemma {:induction false} EscapedParts(s: seq<Byte>, at: nat)
    requires IsEscaped(s) && IsBoundary(s, at)
    ensures IsEscaped(s[..at]) && IsEscaped(s[at..])
  {
    forall k | 0 <= k < at && s[k] == EQUALS
      ensures k + 3 <= at && EscapeAt(s[..at], k).Some?
    {
      assert EscapeAt(s, k).Some?;
    }
    forall k | 0 <= k < |s| - at && s[at..][k] == EQUALS
      ensures EscapeAt(s[at..], k).Some?
    {
      assert EscapeAt(s, at + k).Some?;
    }
  }

  lemma {:induction false} EscapesInSuffix(s: seq<Byte>, at: nat)
    requires at <= |s|
    ensures forall k: nat :: EscapeAt(s[at..], k) == EscapeAt(s, at + k)
  {
  }

  /** What is left after a cut between two characters is whole too. */
  lemma {:induction false} WholeSuffix(s: seq<Byte>, at: nat)
    requires IsEscaped(s) && IsWhole(s) && IsBoundary(s, at) && !ContinuationAt(s, at)
    ensures IsWhole(s[at..])
  {
    EscapesInSuffix(s, at);
    forall k | 0 <= k < |s| - at
      ensures IsWholeAt(s[at..], k)
    {
      hide EscapeAt;
      assert IsWholeAt(s, at + k);
    }
  }

  lemma {:induction false} WholeThere(s: seq<Byte>, k: nat)
    requires IsWhole(s) && k < |s|
    ensures IsWholeAt(s, k)
  {
  }

  // ----- Text written byte by byte

  /** How one byte may be written: escaped, or if it is ASCII as one character that is not `=`. */
  predicate IsToken(t: seq<Byte>, b: Byte) {
    t == Escape(b) || (b < 0x80 && |t| == 1 && t[0] < 0x80 && t[0] != EQUALS)
  }

  function Flatten(tokens: seq<seq<Byte>>): seq<Byte> {
    if tokens == [] then [] else tokens[0] + Flatten(tokens[1..])
  }

  lemma {:induction false} FlattenConcat(a: seq<seq<Byte>>, b: seq<seq<Byte>>)
    ensures Flatten(a + b) == Flatten(a) + Flatten(b)
    decreases |a|
  {
    if a == [] {
      assert a + b == b;
    } else {
      assert (a + b)[1..] == a[1..] + b;
      FlattenConcat(a[1..], b);
    }
  }

  predicate AreTokens(tokens: seq<seq<Byte>>, text: seq<Byte>) {
    |tokens| == |text| && forall i :: 0 <= i < |text| ==> IsToken(tokens[i], text[i])
  }

  /** A boundary of the written text falls between two bytes of the text. */
  lemma {:induction false} BoundaryBetween(tokens: seq<seq<Byte>>, text: seq<Byte>, at: nat) returns (p: nat)
    requires AreTokens(tokens, text) && IsBoundary(Flatten(tokens), at)
    ensures p <= |text| && at == |Flatten(tokens[..p])|
    ensures Flatten(tokens[..p]) == Flatten(tokens)[..at] && Flatten(tokens[p..]) == Flatten(tokens)[at..]
    decreases |tokens|
  {
    if at == 0 {
      p := 0;
      assert tokens[..0] == [] && tokens[0..] == tokens;
    } else {
      BoundaryBehindFirst(tokens, text, at);
      hide EscapeAt, Escape, AreTokens, IsBoundary;
      var first, rest := tokens[0], Flatten(tokens[1..]);
      p := BoundaryBetween(tokens[1..], text[1..], at - |first|);
      FlattenPast(tokens, p);
      assert (first + rest)[..at] == first + rest[..at - |first|] && (first + rest)[at..] == rest[at - |first|..];
      p := p + 1;
    }
  }

  lemma {:induction false} FlattenPast(tokens: seq<seq<Byte>>, p: nat)
    requires p < |tokens|
    ensures Flatten(tokens[..p + 1]) == tokens[0] + Flatten(tokens[1..][..p]) && tokens[p + 1..] == tokens[1..][p..]
    ensures Flatten(tokens) == tokens[0] + Flatten(tokens[1..])
  {
    assert tokens[..p + 1][1..] == tokens[1..][..p];
  }

  lemma {:induction false} BoundaryBehindFirst(tokens: seq<seq<Byte>>, text: seq<Byte>, at: nat)
    requires AreTokens(tokens, text) && IsBoundary(Flatten(tokens), at) && at > 0
    ensures tokens != [] && at >= |tokens[0]| && Flatten(tokens) == tokens[0] + Flatten(tokens[1..])
    ensures AreTokens(tokens[1..], text[1..]) && IsBoundary(Flatten(tokens[1..]), at - |tokens[0]|)
  {
    hide EscapeAt, Escape;
    assert tokens != [];
    var first := tokens[0];
    assert IsToken(first, text[0]);
    assert Flatten(tokens)[0] == first[0];
  }

  lemma {:induction false} EscapedTokens(tokens: seq<seq<Byte>>, text: seq<Byte>)
    requires AreTokens(tokens, text)
    ensures IsEscaped(Flatten(tokens))
    decreases |tokens|
  {
    if tokens != [] {
      EscapedTokens(tokens[1..], text[1..]);
      var first, rest := tokens[0], Flatten(tokens[1..]);
      assert IsToken(first, text[0]);
      forall k | 0 <= k < |first + rest| && (first + rest)[k] == EQUALS
        ensures EscapeAt(first + rest, k).Some?
      {
        if k >= |first| {
          assert rest[k - |first|] == EQUALS;
        } else if |first| == 3 {
          assert k == 0;
        }
      }
    }
  }

  lemma {:induction false} SevenBitTokens(tokens: seq<seq<Byte>>, text: seq<Byte>)
    requires AreTokens(tokens, text)
    ensures IsSevenBit(Flatten(tokens))
    decreases |tokens|
  {
    if tokens != [] {
      SevenBitTokens(tokens[1..], text[1..]);
      assert IsToken(tokens[0], text[0]);
    }
  }

  /** An escape in the written text is that of the byte at its place. */
  lemma {:induction false} EscapeOfToken(tokens: seq<seq<Byte>>, text: seq<Byte>, p: nat)
    requires AreTokens(tokens, text) && p < |text|
    ensures EscapeAt(Flatten(tokens), |Flatten(tokens[..p])|) ==
            if tokens[p] == Escape(text[p]) then Some(text[p]) else None
    ensures |Flatten(tokens[..p])| + |tokens[p]| == |Flatten(tokens[..p + 1])| <= |Flatten(tokens)|
  {
    assert tokens == tokens[..p] + tokens[p..] && tokens[p..] == [tokens[p]] + tokens[p + 1..];
    FlattenConcat(tokens[..p], tokens[p..]);
    assert tokens[..p + 1] == tokens[..p] + [tokens[p]];
    FlattenConcat(tokens[..p], [tokens[p]]);
    assert Flatten([tokens[p]]) == tokens[p];
    assert IsToken(tokens[p], text[p]);
    var before, all := Flatten(tokens[..p]), Flatten(tokens);
    assert all == before + (tokens[p] + Flatten(tokens[p + 1..]));
    assert all[|before|..][..|tokens[p]|] == tokens[p];
    EscapesInSuffix(all, |before|);
    if tokens[p] == Escape(text[p]) {
      assert EscapeAt(all[|before|..], 0) == EscapeAt(tokens[p], 0);
    }
  }

  /** `d` bytes that are not ASCII are `d` escapes. */
  lemma {:induction false} EscapesBehind(tokens: seq<seq<Byte>>, text: seq<Byte>, p: nat, d: nat)
    requires AreTokens(tokens, text) && d <= p <= |text|
    requires forall q :: p - d <= q < p ==> text[q] >= 0x80
    ensures |Flatten(tokens[..p])| == |Flatten(tokens[..p - d])| + 3 * d
    ensures d > 0 ==> EscapeAt(Flatten(tokens), |Flatten(tokens[..p])| - 3 * d) == Some(text[p - d])
  {
    if d > 0 {
      assert IsToken(tokens[p - d], text[p - d]);
      EscapeOfToken(tokens, text, p - d);
      EscapesBehind(tokens, text, p, d - 1);
    }
  }

  /** Text that is UTF-8 is written with the escapes of a character side by side. */
  lemma {:induction false} WholeTokens(tokens: seq<seq<Byte>>, s: seq<Scalar>)
    requires AreTokens(tokens, Utf8All(s))
    ensures IsWhole(Flatten(tokens))
  {
    forall k | 0 <= k < |Flatten(tokens)| && EscapeAt(Flatten(tokens), k).Some?
      ensures IsWholeAt(Flatten(tokens), k)
    {
      var p := TokenOf(tokens, Utf8All(s), k);
      Utf8IsPlaced(s, p);
      PlacedIsWhole(tokens, Utf8All(s), p);
    }
  }

  lemma {:induction false} TokenOf(tokens: seq<seq<Byte>>, text: seq<Byte>, k: nat) returns (p: nat)
    requires AreTokens(tokens, text) && EscapeAt(Flatten(tokens), k).Some?
    ensures p < |text| && k == |Flatten(tokens[..p])| && EscapeAt(Flatten(tokens), k) == Some(text[p])
  {
    EscapedTokens(tokens, text);
    EscapeBehindEscape(Flatten(tokens), k);
    p := BoundaryBetween(tokens, text, k);
    assert tokens[..|text|] == tokens;
    EscapeOfToken(tokens, text, p);
  }

  lemma {:induction false} PlacedIsWhole(tokens: seq<seq<Byte>>, text: seq<Byte>, p: nat)
    requires AreTokens(tokens, text) && p < |text| && IsPlaced(text, p)
    ensures IsWholeAt(Flatten(tokens), |Flatten(tokens[..p])|)
  {
    var k := |Flatten(tokens[..p])|;
    if EscapeAt(Flatten(tokens), k).Some? {
      EscapeOfToken(tokens, text, p);
      if IsContinuation(text[p]) {
        LeadIsBehind(tokens, text, p);
      }
    }
  }

  lemma {:induction false} LeadIsBehind(tokens: seq<seq<Byte>>, text: seq<Byte>, p: nat)
    requires AreTokens(tokens, text) && p < |text| && IsBehind(text, p)
    ensures IsLeadBehind(Flatten(tokens), |Flatten(tokens[..p])|)
  {
    hide EscapeAt, Flatten, AreTokens;
    EscapesBehind(tokens, text, p, 1);
    if text[p - 1] < 0xc0 {
      EscapesBehind(tokens, text, p, 2);
      if text[p - 2] < 0xc0 {
        EscapesBehind(tokens, text, p, 3);
      }
    }
  }

  lemma {:induction false} EscapeBehindEscape(s: seq<Byte>, k: nat)
    requires IsEscaped(s) && k < |s| && s[k] == EQUALS
    ensures IsBoundary(s, k)
  {
    assert k >= 1 && s[k - 1] == EQUALS ==> EscapeAt(s, k - 1).Some?;
    assert k >= 2 && s[k - 2] == EQUALS ==> EscapeAt(s, k - 2).Some?;
  }
}
