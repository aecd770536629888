/**
  * The base64 writer of the mail, and two decoders: that of section 6.8 of RFC
  * 2045 and the tolerant one of the gateway.
  */
module Base64 {
  import opened Bytes
  import opened Wrappers

  /** Bytes on a line. */
  const CHUNK := 57

  // ----- The alphabet

  function Char(sextet: int): (c: Byte)
    requires 0 <= sextet < 64
    ensures Sextet(c) == Some(sextet) && c != EQUALS && c < 0x80
  {
    if sextet < 26 then 0x41 + sextet
    else if sextet < 52 then 0x61 + (sextet - 26)
    else if sextet < 62 then 0x30 + (sextet - 52)
    else if sextet == 62 then 0x2b
    else 0x2f
  }

  /** Both alphabets, as the decoder takes them. */
  function Sextet(c: Byte): (v: Option<nat>)
    ensures v.Some? ==> v.value < 64
  {
    if 0x41 <= c <= 0x5a then Some(c - 0x41)
    else if 0x61 <= c <= 0x7a then Some(c - 0x61 + 26)
    else if IsDigit(c) then Some(c - 0x30 + 52)
    else if c == 0x2b || c == 0x2d then Some(62)
    else if c == 0x2f || c == 0x5f then Some(63)
    else None
  }

  // ----- The encoder

  /** Four characters for one to three bytes. */
  function Quad(group: seq<Byte>): (q: seq<Byte>)
    requires 1 <= |group| <= 3
    ensures |q| == 4 && IsSevenBit(q) && forall k :: 0 <= k < 4 ==> q[k] != CR && q[k] != LF
  {
    var a := group[0];
    if |group| == 1 then [Char(a / 4), Char(a % 4 * 16), EQUALS, EQUALS]
    else
      var b := group[1];
      if |group| == 2 then [Char(a / 4), Char(a % 4 * 16 + b / 16), Char(b % 16 * 4), EQUALS]
      else
        var c := group[2];
        [Char(a / 4), Char(a % 4 * 16 + b / 16), Char(b % 16 * 4 + c / 64), Char(c % 64)]
  }

  /** Base64 without line breaks. */
  function Encoded(content: seq<Byte>): (e: seq<Byte>)
    ensures |e| == (|content| + 2) / 3 * 4
    ensures forall k :: 0 <= k < |e| ==> e[k] != CR && e[k] != LF
  {
    if content == [] then []
    else if |content| <= 3 then Quad(content)
    else Quad(content[..3]) + Encoded(content[3..])
  }

  /** Base64 in lines of 76 characters, with CRLF between them. */
  function Written(content: seq<Byte>): seq<Byte> {
    if |content| <= CHUNK then Encoded(content)
    else Encoded(content[..CHUNK]) + CRLF + Written(content[CHUNK..])
  }

  /** What `push_base64` still writes when `rest` is left. */
  function Continued(isFirst: bool, rest: seq<Byte>): seq<Byte> {
    if isFirst then Written(rest) else if rest == [] then [] else CRLF + Written(rest)
  }

  lemma {:induction false} ContinuedChunk(isFirst: bool, rest: seq<Byte>)
    requires rest != []
    ensures var n := if |rest| < CHUNK then |rest| else CHUNK;
            Continued(isFirst, rest) ==
              (if isFirst then [] else CRLF) + (Encoded(rest[..n]) + Continued(false, rest[n..]))
  {
    hide Encoded;
    if |rest| <= CHUNK {
      assert rest[..|rest|] == rest;
      assert Encoded(rest) + [] == Encoded(rest);
    } else {
      assert Written(rest) == Encoded(rest[..CHUNK]) + CRLF + Written(rest[CHUNK..]);
      assert Encoded(rest[..CHUNK]) + CRLF + Written(rest[CHUNK..]) ==
        Encoded(rest[..CHUNK]) + (CRLF + Written(rest[CHUNK..]));
    }
  }

  /** `push_base64`. */
  method Push(message: seq<Byte>, content: seq<Byte>) returns (longer: seq<Byte>)
    ensures longer == message + Written(content)
  {
    hide Encoded, Written, Continued;
    longer := message;
    var isFirst, rest := true, content;
    PushBounds(content);
    while rest != []
      invariant longer + Continued(isFirst, rest) == message + Written(content)
      invariant isFirst ==> rest == content
      decreases |rest|
    {
      var n := if |rest| < CHUNK then |rest| else CHUNK;
      ContinuedChunk(isFirst, rest);
      if !isFirst {
        longer := longer + CRLF;
      }
      isFirst := false;
      longer := longer + Encoded(rest[..n]);
      rest := rest[n..];
    }
  }

  lemma {:induction false} PushBounds(content: seq<Byte>)
    ensures Continued(true, content) == Written(content)
    ensures Continued(true, []) == [] && Continued(false, []) == []
  {
  }

  // ----- The length

  /** `base64_length`. */
  function Length(length: nat): nat {
    var characters := (length + 2) / 3 * 4;
    characters + 2 * ((if characters == 0 then 0 else characters - 1) / 76)
  }

  lemma {:induction false} WritesLength(content: seq<Byte>)
    ensures |Written(content)| == Length(|content|)
    decreases |content|
  {
    hide Encoded, Length;
    if |content| > CHUNK {
      WritesLength(content[CHUNK..]);
      LengthOfChunk(|content|);
    } else {
      LengthOfLine(|content|);
    }
  }

  lemma {:induction false} LengthOfLine(n: nat)
    requires n <= 57
    ensures Length(n) == (n + 2) / 3 * 4
  {
  }

  lemma {:induction false} LengthOfChunk(n: nat)
    requires n > 57
    ensures Length(n) == 78 + Length(n - 57)
  {
    var c, d := (n + 2) / 3 * 4, (n - 57 + 2) / 3 * 4;
    assert c == d + 76;
    assert (c - 1) / 76 == (d - 1) / 76 + 1;
  }

  /** Every 77th and 78th character are CR and LF, and no other: lines of 76 characters, the last one not longer. */
  lemma {:induction false} LayoutOf(content: seq<Byte>, k: nat)
    requires k < |Written(content)|
    ensures Written(content)[k] == CR <==> k % 78 == 76
    ensures Written(content)[k] == LF <==> k % 78 == 77
    ensures k == |Written(content)| - 1 ==> k % 78 < 76
    decreases |content|
  {
    hide Encoded;
    ModStep(k);
    if |content| > CHUNK {
      hide Written;
      WrittenChunk(content);
      if k >= 78 {
        LayoutOf(content[CHUNK..], k - 78);
      }
    }
  }

  lemma {:induction false} ModStep(k: nat)
    ensures k < 78 ==> k % 78 == k
    ensures k >= 78 ==> k % 78 == (k - 78) % 78
  {
  }

  lemma {:induction false} WrittenChunk(content: seq<Byte>)
    requires |content| > CHUNK
    ensures |Encoded(content[..CHUNK])| == 76
    ensures forall k :: 0 <= k < 76 ==> Written(content)[k] != CR && Written(content)[k] != LF
    ensures |Written(content)| == 78 + |Written(content[CHUNK..])| && |Written(content[CHUNK..])| > 0
    ensures Written(content)[76] == CR && Written(content)[77] == LF
    ensures forall k :: 0 <= k < |Written(content[CHUNK..])| ==>
      Written(content)[78 + k] == Written(content[CHUNK..])[k]
  {
    hide Encoded;
    WrittenIsNotEmpty(content[CHUNK..]);
    assert Written(content) == Encoded(content[..CHUNK]) + CRLF + Written(content[CHUNK..]);
  }

  lemma {:induction false} WrittenIsNotEmpty(content: seq<Byte>)
    requires content != []
    ensures Written(content) != []
  {
    hide Encoded;
  }

  lemma {:induction false} WritesSevenBit(content: seq<Byte>)
    ensures IsSevenBit(Written(content))
    decreases |content|
  {
    hide Encoded;
    if |content| <= CHUNK {
      EncodedIsSevenBit(content);
    } else {
      EncodedIsSevenBit(content[..CHUNK]);
      WritesSevenBit(content[CHUNK..]);
    }
  }

  lemma {:induction false} EncodedIsSevenBit(content: seq<Byte>)
    ensures IsSevenBit(Encoded(content))
    decreases |content|
  {
    if |content| > 3 {
      EncodedIsSevenBit(content[3..]);
    }
  }

  // ----- The decoder

  function Power(bits: nat): (p: nat)
    requires bits <= 6 && bits % 2 == 0
    ensures p > 0
  {
    if bits == 0 then 1 else if bits == 2 then 4 else if bits == 4 then 16 else 64
  }

  /** What is in the decoder between two characters. */
  predicate IsBuffer(buffer: nat, bits: nat) {
    bits <= 6 && bits % 2 == 0 && buffer < Power(bits)
  }

  /** What the decoder gives for the rest of a text. */
  function Rest(text: seq<Byte>, buffer: nat, bits: nat): seq<Byte>
    requires IsBuffer(buffer, bits)
    decreases |text|
  {
    if text == [] || text[0] == EQUALS then []
    else match Sextet(text[0])
      case None => Rest(text[1..], buffer, bits)
      case Some(sextet) =>
        var wide := buffer * 64 + sextet;
        if bits == 0 then Rest(text[1..], wide, 6)
        else [wide / Power(bits - 2)] + Rest(text[1..], wide % Power(bits - 2), bits - 2)
  }

  /** `decode_base64`: its loop keeps the buffer below two to the power of its bits. */
  method Decode(text: seq<Byte>) returns (bytes: seq<Byte>)
    ensures bytes == Rest(text, 0, 0)
  {
    hide Rest, Power, Sextet;
    RestEnd();
    BufferStep(0, 0, 0);
    bytes := [];
    var buffer: nat, bits: nat := 0, 0;
    assert text[0..] == text && text[|text|..] == [];
    for i := 0 to |text|
      invariant IsBuffer(buffer, bits)
      invariant bytes + Rest(text[i..], buffer, bits) == Rest(text, 0, 0)
    {
      RestStep(text, i, buffer, bits);
      if text[i] == EQUALS {
        assert bytes + [] == bytes;
        return;
      }
      var sextet := Sextet(text[i]);
      if sextet != None {
        BufferStep(buffer, bits, sextet.value);
        buffer := buffer * 64 + sextet.value;
        bits := bits + 6;
        if bits >= 8 {
          bits := bits - 8;
          bytes := bytes + [buffer / Power(bits)];
          buffer := buffer % Power(bits);
        }
      }
    }
    assert bytes + [] == bytes;
  }

  lemma {:induction false} BufferStep(buffer: nat, bits: nat, sextet: nat)
    requires IsBuffer(buffer, bits) && sextet < 64
    ensures Power(0) == 1 && Power(6) == 64
    ensures var wide := buffer * 64 + sextet;
            if bits == 0 then wide < Power(6)
            else wide / Power(bits - 2) < 256 && wide % Power(bits - 2) < Power(bits - 2)
  {
  }

  lemma {:induction false} RestEnd()
    ensures forall buffer, bits | IsBuffer(buffer, bits) :: Rest([], buffer, bits) == []
  {
  }

  lemma {:induction false} RestStep(text: seq<Byte>, i: nat, buffer: nat, bits: nat)
    requires i < |text| && IsBuffer(buffer, bits)
    ensures Rest(text[i..], buffer, bits) ==
            if text[i] == EQUALS then []
            else match Sextet(text[i])
              case None => Rest(text[i + 1..], buffer, bits)
              case Some(sextet) =>
                var wide := buffer * 64 + sextet;
                if bits == 0 then Rest(text[i + 1..], wide, 6)
                else [wide / Power(bits - 2)] + Rest(text[i + 1..], wide % Power(bits - 2), bits - 2)
  {
    assert text[i..][1..] == text[i + 1..];
  }

  lemma {:induction false} ReadsChar(sextet: nat, text: seq<Byte>, buffer: nat, bits: nat)
    requires sextet < 64 && IsBuffer(buffer, bits)
    ensures Rest([Char(sextet)] + text, buffer, bits) ==
            var wide := buffer * 64 + sextet;
            if bits == 0 then Rest(text, wide, 6)
            else [wide / Power(bits - 2)] + Rest(text, wide % Power(bits - 2), bits - 2)
  {
    assert ([Char(sextet)] + text)[1..] == text;
  }

  lemma {:induction false} ReadsOne(a: Byte, text: seq<Byte>)
    ensures Rest(Quad([a]) + text, 0, 0) == [a]
  {
    hide Rest, Char;
    var more := [EQUALS] + ([EQUALS] + text);
    assert Quad([a]) + text == [Char(a / 4)] + ([Char(a % 4 * 16)] + more);
    ReadsChar(a / 4, [Char(a % 4 * 16)] + more, 0, 0);
    ReadsChar(a % 4 * 16, more, a / 4, 6);
    ReadsPadding([EQUALS] + text, 0, 4);
  }

  lemma {:induction false} TwoBytes(a: Byte, b: Byte)
    ensures var x, y := a % 4 * 16 + b / 16, b % 16 * 4;
            && 0 <= x < 64 && 0 <= y < 64
            && (a / 4 * 64 + x) / 16 == a && (a / 4 * 64 + x) % 16 == b / 16
            && (b / 16 * 64 + y) / 4 == b && (b / 16 * 64 + y) % 4 == 0
  {
  }

  lemma {:induction false} ReadsTwo(a: Byte, b: Byte, text: seq<Byte>)
    ensures Rest(Quad([a, b]) + text, 0, 0) == [a, b]
  {
    TwoBytes(a, b);
    ReadsTwoSextets(a / 4, a % 4 * 16 + b / 16, b % 16 * 4, a, b, text);
    assert Quad([a, b]) == [Char(a / 4), Char(a % 4 * 16 + b / 16), Char(b % 16 * 4), EQUALS];
  }

  lemma {:induction false} ReadsTwoSextets(w: nat, x: nat, y: nat, a: Byte, b: Byte, text: seq<Byte>)
    requires w < 64 && x < 64 && y < 64
    requires (w * 64 + x) / 16 == a
    requires ((w * 64 + x) % 16 * 64 + y) / 4 == b
    requires ((w * 64 + x) % 16 * 64 + y) % 4 == 0
    ensures Rest([Char(w), Char(x), Char(y), EQUALS] + text, 0, 0) == [a, b]
  {
    hide Rest, Char;
    var afterX, afterY := [Char(y)] + ([EQUALS] + text), [EQUALS] + text;
    assert [Char(w), Char(x), Char(y), EQUALS] + text == [Char(w)] + ([Char(x)] + afterX);
    ReadsChar(w, [Char(x)] + afterX, 0, 0);
    ReadsChar(x, afterX, w, 6);
    ReadsChar(y, afterY, (w * 64 + x) % 16, 4);
    ReadsPadding(text, 0, 2);
  }

  lemma {:induction false} ThreeBytes(a: Byte, b: Byte, c: Byte)
    ensures var x, y := a % 4 * 16 + b / 16, b % 16 * 4 + c / 64;
            && 0 <= x < 64 && 0 <= y < 64
            && (a / 4 * 64 + x) / 16 == a && (a / 4 * 64 + x) % 16 == b / 16
            && (b / 16 * 64 + y) / 4 == b && (b / 16 * 64 + y) % 4 == c / 64
            && c / 64 * 64 + c % 64 == c
  {
  }

  lemma {:induction false} ReadsThree(a: Byte, b: Byte, c: Byte, text: seq<Byte>)
    ensures Rest(Quad([a, b, c]) + text, 0, 0) == [a, b, c] + Rest(text, 0, 0)
  {
    ThreeBytes(a, b, c);
    ReadsSextets(a / 4, a % 4 * 16 + b / 16, b % 16 * 4 + c / 64, c % 64, a, b, c, text);
    assert Quad([a, b, c]) == [Char(a / 4), Char(a % 4 * 16 + b / 16), Char(b % 16 * 4 + c / 64), Char(c % 64)];
  }

  lemma {:induction false} ReadsSextets(w: nat, x: nat, y: nat, z: nat, a: Byte, b: Byte, c: Byte, text: seq<Byte>)
    requires w < 64 && x < 64 && y < 64 && z < 64
    requires (w * 64 + x) / 16 == a
    requires ((w * 64 + x) % 16 * 64 + y) / 4 == b
    requires ((w * 64 + x) % 16 * 64 + y) % 4 * 64 + z == c
    ensures Rest([Char(w), Char(x), Char(y), Char(z)] + text, 0, 0) == [a, b, c] + Rest(text, 0, 0)
  {
    hide Rest, Char;
    var afterY := [Char(z)] + text;
    var afterX := [Char(y)] + afterY;
    var afterW := [Char(x)] + afterX;
    assert [Char(w), Char(x), Char(y), Char(z)] + text == [Char(w)] + afterW;
    ReadsChar(w, afterW, 0, 0);
    ReadsChar(x, afterX, w, 6);
    ReadsChar(y, afterY, (w * 64 + x) % 16, 4);
    ReadsChar(z, text, ((w * 64 + x) % 16 * 64 + y) % 4, 2);
    ZeroBuffer(text, c);
    assert [a] + ([b] + ([c] + Rest(text, 0, 0))) == [a, b, c] + Rest(text, 0, 0);
  }

  lemma {:induction false} ZeroBuffer(text: seq<Byte>, c: nat)
    ensures c / Power(0) == c && c % Power(0) == 0
  {
  }

  lemma {:induction false} EncodedGroup(content: seq<Byte>)
    requires |content| >= 3
    ensures Encoded(content) == Quad(content[..3]) + Encoded(content[3..])
  {
    hide Quad;
    assert |content| == 3 ==> content[..3] == content && Encoded(content[3..]) == [];
  }

  /** Whole groups leave nothing in the buffer. */
  lemma {:induction false} ReadsEncoded(content: seq<Byte>, text: seq<Byte>)
    requires text == [] || |content| % 3 == 0
    ensures Rest(Encoded(content) + text, 0, 0) == content + Rest(text, 0, 0)
    decreases |content|
  {
    hide Rest, Quad;
    if content == [] {
      assert Encoded(content) + text == text;
    } else if |content| < 3 {
      ReadsEnd();
      if |content| == 1 {
        ReadsOne(content[0], text);
        assert content == [content[0]];
      } else {
        ReadsTwo(content[0], content[1], text);
        assert content == [content[0], content[1]];
      }
    } else {
      EncodedGroup(content);
      assert Encoded(content) + text == Quad(content[..3]) + (Encoded(content[3..]) + text);
      assert content[..3] == [content[0], content[1], content[2]];
      ReadsThree(content[0], content[1], content[2], Encoded(content[3..]) + text);
      ReadsEncoded(content[3..], text);
      assert content == content[..3] + content[3..];
    }
  }

  lemma {:induction false} ReadsEnd()
    ensures Rest([], 0, 0) == []
  {
  }

  /** The line breaks are skipped. */
  lemma {:induction false} ReadsCrlf(text: seq<Byte>)
    ensures Rest(CRLF + text, 0, 0) == Rest(text, 0, 0)
  {
    assert (CRLF + text)[1..] == [LF] + text && ([LF] + text)[1..] == text;
  }

  /** The tolerant decoder reads back what the writer wrote. */
  lemma {:induction false} ReadsWritten(content: seq<Byte>)
    ensures Rest(Written(content), 0, 0) == content
    decreases |content|
  {
    hide Rest, Encoded;
    ReadsEnd();
    if |content| <= CHUNK {
      ReadsEncoded(content, []);
      assert Encoded(content) + [] == Encoded(content) && content + [] == content;
    } else {
      var rest := Written(content[CHUNK..]);
      ReadsEncoded(content[..CHUNK], CRLF + rest);
      assert Written(content) == Encoded(content[..CHUNK]) + (CRLF + rest);
      ReadsCrlf(rest);
      ReadsWritten(content[CHUNK..]);
    }
  }

  lemma {:induction false} ReadsPadding(text: seq<Byte>, buffer: nat, bits: nat)
    requires IsBuffer(buffer, bits)
    ensures Rest([EQUALS] + text, buffer, bits) == []
  {
  }

  // ----- The standard's decoder

  /** One character of the standard's alphabet (table 1 of RFC 2045). */
  function Value(c: Byte): (v: Option<nat>)
    ensures v.Some? ==> v.value < 64
  {
    if c == 0x2d || c == 0x5f then None else Sextet(c)
  }

  /** Four characters, of which padding may take the last or the last two. Bits that are left over are zero. */
  function Group(q: seq<Byte>): (bytes: Option<seq<Byte>>)
    requires |q| == 4
  {
    if Value(q[0]).None? || Value(q[1]).None? then None
    else
      var w, x := Value(q[0]).value, Value(q[1]).value;
      if q[2] == EQUALS && q[3] == EQUALS then
        if x % 16 == 0 then Some([w * 4 + x / 16]) else None
      else if Value(q[2]).None? then None
      else
        var y := Value(q[2]).value;
        if q[3] == EQUALS then
          if y % 4 == 0 then Some([w * 4 + x / 16, x % 16 * 16 + y / 4]) else None
        else if Value(q[3]).None? then None
        else Some([w * 4 + x / 16, x % 16 * 16 + y / 4, y % 4 * 64 + Value(q[3]).value])
  }

  /** Whole groups, of which only the last is padded. */
  function Read(s: seq<Byte>): Option<seq<Byte>>
    decreases |s|
  {
    if s == [] then Some([])
    else if |s| < 4 then None
    else match Group(s[..4])
      case None => None
      case Some(bytes) =>
        if |bytes| < 3 && |s| > 4 then None
        else match Read(s[4..])
          case None => None
          case Some(rest) => Some(bytes + rest)
  }

  /** The text without its line breaks, which section 6.8 ignores. */
  function Unbroken(s: seq<Byte>): seq<Byte> {
    if s == [] then [] else (if s[0] == CR || s[0] == LF then [] else [s[0]]) + Unbroken(s[1..])
  }

  lemma {:induction false} GroupIsRead(group: seq<Byte>)
    requires 1 <= |group| <= 3
    ensures Group(Quad(group)) == Some(group)
  {
    hide Sextet, Char;
    if |group| == 1 {
      OneByte(group[0]);
      assert group == [group[0]];
    } else if |group| == 2 {
      TwoParts(group[0], group[1]);
      assert group == [group[0], group[1]];
    } else {
      TwoParts(group[0], group[1]);
      ThreeParts(group[1], group[2]);
      assert group == [group[0], group[1], group[2]];
    }
    AlphabetIsStandard();
  }

  lemma {:induction false} AlphabetIsStandard()
    ensures forall k :: 0 <= k < 64 ==> Value(Char(k)) == Some(k)
  {
  }

  lemma {:induction false} OneByte(a: Byte)
    ensures var x := a % 4 * 16;
            0 <= x < 64 && x % 16 == 0 && a / 4 * 4 + x / 16 == a
  {
  }

  lemma {:induction false} TwoParts(a: Byte, b: Byte)
    ensures var x, y := a % 4 * 16 + b / 16, b % 16 * 4;
            && 0 <= x < 64 && 0 <= y < 64 && a / 4 * 4 + x / 16 == a && x % 16 == b / 16
            && x % 16 * 16 + y / 4 == b && y % 4 == 0
  {
  }

  lemma {:induction false} ThreeParts(b: Byte, c: Byte)
    ensures var y := b % 16 * 4 + c / 64;
            && 0 <= y < 64 && b / 16 * 16 + y / 4 == b && y % 4 * 64 + c % 64 == c
  {
  }

  /** The standard's decoder reads back what is encoded. */
  lemma {:induction false} EncodedIsRead(content: seq<Byte>)
    ensures Read(Encoded(content)) == Some(content)
    decreases |content|
  {
    hide Quad, Group;
    if content != [] {
      if |content| < 3 {
        GroupIsRead(content);
        assert Quad(content)[..4] == Quad(content) && content + [] == content;
      } else {
        EncodedGroup(content);
        GroupIsRead(content[..3]);
        EncodedIsRead(content[3..]);
        var e := Encoded(content);
        assert e[..4] == Quad(content[..3]) && e[4..] == Encoded(content[3..]);
        assert content[..3] + content[3..] == content;
      }
    }
  }

  lemma {:induction false} UnbrokenConcat(a: seq<Byte>, b: seq<Byte>)
    ensures Unbroken(a + b) == Unbroken(a) + Unbroken(b)
    decreases |a|
  {
    if a == [] {
      assert a + b == b;
    } else {
      assert (a + b)[1..] == a[1..] + b;
      UnbrokenConcat(a[1..], b);
    }
  }

  lemma {:induction false} UnbrokenStays(s: seq<Byte>)
    requires forall k :: 0 <= k < |s| ==> s[k] != CR && s[k] != LF
    ensures Unbroken(s) == s
  {
    if s != [] {
      UnbrokenStays(s[1..]);
      assert [s[0]] + s[1..] == s;
    }
  }

  lemma {:induction false} EncodedConcat(a: seq<Byte>, b: seq<Byte>)
    requires |a| % 3 == 0
    ensures Encoded(a + b) == Encoded(a) + Encoded(b)
    decreases |a|
  {
    hide Quad;
    if a == [] {
      assert a + b == b;
    } else {
      EncodedGroup(a);
      EncodedGroup(a + b);
      assert (a + b)[..3] == a[..3] && (a + b)[3..] == a[3..] + b;
      EncodedConcat(a[3..], b);
    }
  }

  lemma {:induction false} WrittenUnbroken(content: seq<Byte>)
    ensures Unbroken(Written(content)) == Encoded(content)
    decreases |content|
  {
    hide Encoded;
    if |content| <= CHUNK {
      UnbrokenStays(Encoded(content));
    } else {
      var chunk, rest := content[..CHUNK], content[CHUNK..];
      UnbrokenStays(Encoded(chunk));
      WrittenUnbroken(rest);
      UnbrokenConcat(Encoded(chunk) + CRLF, Written(rest));
      UnbrokenConcat(Encoded(chunk), CRLF);
      assert CRLF[1..][1..] == [] && Unbroken(CRLF[1..]) == [];
      EncodedConcat(chunk, rest);
      assert chunk + rest == content;
    }
  }

  /** Section 6.8 of RFC 2045 reads back what the writer wrote. */
  lemma {:induction false} WrittenIsRead(content: seq<Byte>)
    ensures Read(Unbroken(Written(content))) == Some(content)
  {
    WrittenUnbroken(content);
    EncodedIsRead(content);
  }
}
