/** Code points and their UTF-8 bytes. */
module Unicode {
  import opened Bytes

  /** A code point of a string: never a surrogate. */
  type Scalar = p: int | 0 <= p < 0xd800 || 0xe000 <= p < 0x11_0000

  predicate IsContinuation(b: Byte) {
    0x80 <= b < 0xc0
  }

  function Utf8(c: Scalar): (u: seq<Byte>)
    ensures 1 <= |u| <= 4
    ensures |u| == 1 <==> c < 0x80
    ensures |u| == 1 ==> u == [c]
    ensures |u| > 1 ==> u[0] >= 0xc2
    ensures forall i :: 1 <= i < |u| ==> IsContinuation(u[i])
  {
    if c < 0x80 then [c]
    else if c < 0x800 then [0xc0 + c / 0x40, 0x80 + c % 0x40]
    else if c < 0x1_0000 then [0xe0 + c / 0x1000, 0x80 + c / 0x40 % 0x40, 0x80 + c % 0x40]
    else [0xf0 + c / 0x4_0000, 0x80 + c / 0x1000 % 0x40, 0x80 + c / 0x40 % 0x40, 0x80 + c % 0x40]
  }

  /** The bytes of a string. */
  function Utf8All(s: seq<Scalar>): seq<Byte> {
    if s == [] then [] else Utf8(s[0]) + Utf8All(s[1..])
  }

  /** The first byte tells the length, and the bytes the code point. */
  function CodePoint(u: seq<Byte>): int
    requires 1 <= |u| <= 4
  {
    var k: seq<int> := u;
    if |k| == 1 then k[0]
    else if |k| == 2 then 0x40 * (k[0] - 0xc0) + (k[1] - 0x80)
    else if |k| == 3 then 0x40 * (0x40 * (k[0] - 0xe0) + (k[1] - 0x80)) + (k[2] - 0x80)
    else 0x40 * (0x40 * (0x40 * (k[0] - 0xf0) + (k[1] - 0x80)) + (k[2] - 0x80)) + (k[3] - 0x80)
  }

  function LengthFrom(lead: Byte): nat {
    if lead < 0x80 then 1 else if lead < 0xe0 then 2 else if lead < 0xf0 then 3 else 4
  }

  lemma {:induction false} Utf8IsReadBack(c: Scalar)
    ensures CodePoint(Utf8(c)) == c && |Utf8(c)| == LengthFrom(Utf8(c)[0])
  {
    SixBits(c);
    SixBits(c / 0x40);
    SixBits(c / 0x1000);
  }

  lemma {:induction false} SixBits(c: nat)
    ensures c == 0x40 * (c / 0x40) + c % 0x40
    ensures c / 0x40 / 0x40 == c / 0x1000 && c / 0x1000 / 0x40 == c / 0x4_0000
  {
  }

  /** Strings with the same bytes are the same string. */
  lemma {:induction false} BytesDetermineString(s: seq<Scalar>, t: seq<Scalar>)
    requires Utf8All(s) == Utf8All(t)
    ensures s == t
    decreases |s|
  {
    hide Utf8, CodePoint, LengthFrom;
    if s == [] || t == [] {
      assert s != [] ==> Utf8All(s) != [];
      assert t != [] ==> Utf8All(t) != [];
    } else {
      Utf8IsReadBack(s[0]);
      Utf8IsReadBack(t[0]);
      var n := |Utf8(s[0])|;
      assert Utf8All(s)[0] == Utf8(s[0])[0] && Utf8All(t)[0] == Utf8(t[0])[0];
      assert Utf8All(s)[..n] == Utf8(s[0]) && Utf8All(t)[..n] == Utf8(t[0]);
      assert Utf8All(s)[n..] == Utf8All(s[1..]) && Utf8All(t)[n..] == Utf8All(t[1..]);
      BytesDetermineString(s[1..], t[1..]);
      assert s == [s[0]] + s[1..] && t == [t[0]] + t[1..];
    }
  }

  lemma {:induction false} Utf8Concat(a: seq<Scalar>, b: seq<Scalar>)
    ensures Utf8All(a + b) == Utf8All(a) + Utf8All(b)
    decreases |a|
  {
    if a == [] {
      assert a + b == b;
    } else {
      assert (a + b)[1..] == a[1..] + b;
      Utf8Concat(a[1..], b);
    }
  }

  /** Whole characters: the bytes of some string. */
  ghost predicate IsUtf8(text: seq<Byte>) {
    exists s: seq<Scalar> :: text == Utf8All(s)
  }

  /**
    * Behind a continuation byte there are at most two more, and then the first
    * byte of a character. No byte is 0xC0 or 0xC1.
    */
  predicate IsPlaced(text: seq<Byte>, p: nat)
    requires p < |text|
  {
    && (text[p] < 0xc0 || text[p] >= 0xc2)
    && (IsContinuation(text[p]) ==> IsBehind(text, p))
  }

  predicate IsBehind(text: seq<Byte>, p: nat)
    requires p < |text|
  {
    || (p >= 1 && text[p - 1] >= 0xc0)
    || (p >= 2 && IsContinuation(text[p - 1]) && text[p - 2] >= 0xc0)
    || (p >= 3 && IsContinuation(text[p - 1]) && IsContinuation(text[p - 2]) && text[p - 3] >= 0xc0)
  }

  lemma {:induction false} Utf8IsPlaced(s: seq<Scalar>, p: nat)
    requires p < |Utf8All(s)|
    ensures IsPlaced(Utf8All(s), p)
    decreases |s|
  {
    hide Utf8;
    var first, rest := Utf8(s[0]), Utf8All(s[1..]);
    if p >= |first| {
      Utf8IsPlaced(s[1..], p - |first|);
    }
  }

  /** A stretch between two places where no continuation byte starts is whole. */
  lemma {:induction false} StretchIsUtf8(s: seq<Scalar>, from: nat, to: nat)
    requires from <= to <= |Utf8All(s)|
    requires from < |Utf8All(s)| ==> !IsContinuation(Utf8All(s)[from])
    requires to < |Utf8All(s)| ==> !IsContinuation(Utf8All(s)[to])
    ensures IsUtf8(Utf8All(s)[from..to])
    decreases |s|
  {
    hide Utf8;
    var text := Utf8All(s);
    if from == to {
      assert text[from..to] == Utf8All([]);
    } else {
      var first, rest := Utf8(s[0]), Utf8All(s[1..]);
      assert text == first + rest;
      assert forall k :: |first| <= k < |text| ==> text[k] == rest[k - |first|];
      assert to >= |first| && (from > 0 ==> from >= |first|);
      if from > 0 {
        StretchIsUtf8(s[1..], from - |first|, to - |first|);
        assert text[from..to] == rest[from - |first|..to - |first|];
      } else {
        StretchIsUtf8(s[1..], 0, to - |first|);
        PrependIsUtf8(s[0], rest[0..to - |first|]);
        assert text[from..to] == first + rest[0..to - |first|];
      }
    }
  }

  lemma {:induction false} PrependIsUtf8(c: Scalar, text: seq<Byte>)
    requires IsUtf8(text)
    ensures IsUtf8(Utf8(c) + text)
  {
    var cs: seq<Scalar> :| text == Utf8All(cs);
    assert ([c] + cs)[1..] == cs;
    assert Utf8(c) + text == Utf8All([c] + cs);
  }
}
