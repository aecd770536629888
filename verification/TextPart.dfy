/** The bodies of a message: line endings, lengths, and the text in one of three transfer encodings. */
module TextPart {
  import opened Bytes
  import opened Unicode
  import opened Wrappers
  import Base64
  import EncodedWords
  import Escapes
  import QuotedPrintable

  // ----- CRLF for each lone LF

  /** The content with a CR before each LF that does not follow one. */
  function WithCrlf(previous: Byte, content: seq<Byte>): seq<Byte>
    decreases |content|
  {
    if content == [] then []
    else (if content[0] == LF && previous != CR then CRLF else [content[0]]) + WithCrlf(content[0], content[1..])
  }

  /** The first line, its LF included. */
  function LineLength(content: seq<Byte>): (n: nat)
    ensures n <= |content| && (content != [] ==> n > 0)
    ensures n > 0 ==> content[n - 1] == LF || n == |content|
    ensures forall k :: 0 <= k < n - 1 ==> content[k] != LF
  {
    if content == [] then 0
    else if content[0] == LF then 1
    else 1 + LineLength(content[1..])
  }

  function LastOf(previous: Byte, content: seq<Byte>): Byte {
    if content == [] then previous else content[|content| - 1]
  }

  lemma {:induction false} WithCrlfSkips(previous: Byte, line: seq<Byte>, rest: seq<Byte>)
    requires forall k :: 0 <= k < |line| ==> line[k] != LF
    ensures WithCrlf(previous, line + rest) == line + WithCrlf(LastOf(previous, line), rest)
    decreases |line|
  {
    if line == [] {
      assert line + rest == rest;
    } else {
      assert (line + rest)[1..] == line[1..] + rest;
      WithCrlfSkips(line[0], line[1..], rest);
      assert [line[0]] + (line[1..] + WithCrlf(LastOf(previous, line), rest)) ==
        line + WithCrlf(LastOf(previous, line), rest);
    }
  }

  lemma {:induction false} WithCrlfLine(previous: Byte, content: seq<Byte>)
    requires content != []
    ensures var n := LineLength(content);
            var line, before := content[..n], content[..n - 1];
            WithCrlf(previous, content) ==
            (if line[n - 1] == LF && LastOf(previous, before) != CR then before + CRLF else line) +
              WithCrlf(line[n - 1], content[n..])
  {
    hide WithCrlf, LineLength;
    var n := LineLength(content);
    var before, tail := content[..n - 1], content[n - 1..];
    assert content == before + tail;
    WithCrlfSkips(previous, before, tail);
    WithCrlfFirst(LastOf(previous, before), tail);
    assert tail[1..] == content[n..];
    Regroup(content, n, WithCrlf(content[n - 1], content[n..]));
  }

  lemma {:induction false} Regroup(content: seq<Byte>, n: nat, more: seq<Byte>)
    requires 0 < n <= |content|
    ensures content[..n - 1] + (CRLF + more) == content[..n - 1] + CRLF + more
    ensures content[..n - 1] + ([content[n - 1]] + more) == content[..n] + more
  {
  }

  lemma {:induction false} WithCrlfFirst(previous: Byte, content: seq<Byte>)
    requires content != []
    ensures WithCrlf(previous, content) ==
            (if content[0] == LF && previous != CR then CRLF else [content[0]]) + WithCrlf(content[0], content[1..])
  {
  }

  /** `push_with_crlf`: line by line. */
  method PushWithCrlf(message: seq<Byte>, content: seq<Byte>) returns (longer: seq<Byte>)
    ensures longer == message + WithCrlf(LF, content)
  {
    hide WithCrlf;
    longer := message;
    var previous, rest := LF, content;
    while rest != []
      invariant longer + WithCrlf(previous, rest) == message + WithCrlf(LF, content)
      decreases |rest|
    {
      var n := LineLength(rest);
      var line, before, last := rest[..n], rest[..n - 1], rest[n - 1];
      WithCrlfLine(previous, rest);
      if last == LF && LastOf(previous, before) != CR {
        longer := longer + before + CRLF;
      } else {
        longer := longer + line;
      }
      previous := last;
      rest := rest[n..];
    }
    WithCrlfEnds(previous);
  }

  lemma {:induction false} WithCrlfEnds(previous: Byte)
    ensures WithCrlf(previous, []) == []
  {
  }

  /** `lone_line_feeds`. */
  method LoneLineFeeds(content: seq<Byte>) returns (count: nat)
    ensures count + |content| == |WithCrlf(LF, content)|
  {
    var previous := LF;
    count := 0;
    assert content[0..] == content;
    for i := 0 to |content|
      invariant count + i + |WithCrlf(previous, content[i..])| == |WithCrlf(LF, content)|
    {
      assert content[i..][1..] == content[i + 1..];
      if content[i] == LF && previous != CR {
        count := count + 1;
      }
      previous := content[i];
    }
  }

  predicate IsLoneLf(previous: Byte, content: seq<Byte>, k: nat)
    requires k < |content|
  {
    content[k] == LF && (if k == 0 then previous else content[k - 1]) != CR
  }

  predicate HasNoLoneLf(previous: Byte, content: seq<Byte>) {
    forall k :: 0 <= k < |content| ==> !IsLoneLf(previous, content, k)
  }

  /** Such content passes unchanged. */
  lemma {:induction false} ProperStays(previous: Byte, content: seq<Byte>)
    requires HasNoLoneLf(previous, content)
    ensures WithCrlf(previous, content) == content
    decreases |content|
  {
    if content != [] {
      assert !IsLoneLf(previous, content, 0);
      assert forall k :: 0 <= k < |content| - 1 ==>
        IsLoneLf(content[0], content[1..], k) == IsLoneLf(previous, content, k + 1);
      ProperStays(content[0], content[1..]);
      assert [content[0]] + content[1..] == content;
    }
  }

  // ----- Bodies

  datatype Body = Ready(bytes: seq<Byte>) | InBase64(content: seq<Byte>) | EightBit(content: seq<Byte>)

  /** `Body::write`. */
  method Write(body: Body, message: seq<Byte>) returns (longer: seq<Byte>)
    ensures longer == message + Written(body)
  {
    match body {
      case Ready(bytes) => longer := message + bytes;
      case InBase64(content) => longer := Base64.Push(message, content);
      case EightBit(content) => longer := PushWithCrlf(message, content);
    }
  }

  function Written(body: Body): seq<Byte> {
    match body
    case Ready(bytes) => bytes
    case InBase64(content) => Base64.Written(content)
    case EightBit(content) => WithCrlf(LF, content)
  }

  /** `Body::len`: the message is allocated with exactly the room its bodies need. */
  method Length(body: Body) returns (n: nat)
    ensures n == |Written(body)|
  {
    match body {
      case Ready(bytes) => n := |bytes|;
      case InBase64(content) =>
        n := Base64.Length(|content|);
        Base64.WritesLength(content);
      case EightBit(content) =>
        n := LoneLineFeeds(content);
        n := |content| + n;
    }
  }

  // ----- Quoted-printable, and then CRLF for each lone LF

  /** What the line ending pass relies on. */
  predicate IsSteady(w: seq<Byte>) {
    QuotedPrintable.BreaksOutsideLineEnds(w) && QuotedPrintable.SoftBreaksApart(w) &&
      QuotedPrintable.LineEndsUnescaped(w)
  }

  /**
    * At position `k` of the wire, where a piece starts, `seen` is the last byte
    * decoded. The wire ends in CR when the text does, except behind a soft break.
    */
  predicate Agrees(w: seq<Byte>, k: nat, seen: Byte) {
    && Escapes.IsBoundary(w, k)
    && if k >= 3 && QuotedPrintable.SoftBreakAt(w, k - 3) then seen == CR ==> k >= 4 && w[k - 4] == CR
       else seen == CR <==> k > 0 && w[k - 1] == CR
  }

  function Before(w: seq<Byte>, k: nat): Byte
    requires k <= |w|
  {
    if k == 0 then LF else w[k - 1]
  }

  /** The line ending pass on the wire does to the decoded text what it would do to the text. */
  lemma {:induction false} CrlfAfterEncoding(w: seq<Byte>, k: nat, seen: Byte)
    requires IsSteady(w) && k <= |w| && Agrees(w, k, seen)
    requires QuotedPrintable.Decode(w[k..]).Some?
    ensures QuotedPrintable.Decode(WithCrlf(Before(w, k), w[k..])) ==
            Some(WithCrlf(seen, QuotedPrintable.Decode(w[k..]).value))
    decreases |w| - k
  {
    if k == |w| {
      WithCrlfEnds(Before(w, k));
      WithCrlfEnds(seen);
    } else {
      hide WithCrlf, IsSteady, Agrees, NextSeen, Before, QuotedPrintable.Decode, QuotedPrintable.FirstPiece;
      QuotedPrintable.DecodeFirst(w[k..]);
      var n := QuotedPrintable.FirstPiece(w[k..]).value.length;
      PieceAgrees(w, k, seen);
      assert w[k..][n..] == w[k + n..];
      var next := NextSeen(w, k, seen);
      CrlfAfterEncoding(w, k + n, next);
      PiecePasses(w, k, seen);
    }
  }

  /** The last byte decoded when the piece at `k` has been read. */
  function NextSeen(w: seq<Byte>, k: nat, seen: Byte): Byte
    requires k < |w| && QuotedPrintable.FirstPiece(w[k..]).Some?
  {
    LastOf(seen, QuotedPrintable.FirstPiece(w[k..]).value.bytes)
  }

  lemma {:induction false} PieceAgrees(w: seq<Byte>, k: nat, seen: Byte)
    requires IsSteady(w) && k < |w| && Agrees(w, k, seen)
    requires QuotedPrintable.FirstPiece(w[k..]).Some?
    ensures Agrees(w, k + QuotedPrintable.FirstPiece(w[k..]).value.length, NextSeen(w, k, seen))
  {
    Escapes.EscapesInSuffix(w, k);
    assert w[k] == EQUALS && QuotedPrintable.SOFT_BREAK <= w[k..] ==> QuotedPrintable.SoftBreakAt(w, k);
  }

  lemma {:induction false} WithCrlfThree(previous: Byte, s: seq<Byte>)
    requires |s| >= 3 && s[0] != LF && s[1] != LF && (s[2] == LF ==> s[1] == CR)
    ensures WithCrlf(previous, s) == s[..3] + WithCrlf(s[2], s[3..])
  {
    hide WithCrlf;
    WithCrlfFirst(previous, s);
    WithCrlfFirst(s[0], s[1..]);
    WithCrlfFirst(s[1], s[2..]);
    assert s[1..][1..] == s[2..] && s[2..][1..] == s[3..];
    var more := WithCrlf(s[2], s[3..]);
    assert [s[0]] + ([s[1]] + ([s[2]] + more)) == s[..3] + more;
  }

  lemma {:induction false} DecodePrefix(piece: seq<Byte>, bytes: seq<Byte>, more: seq<Byte>)
    requires QuotedPrintable.Decode(piece) == Some(bytes) && QuotedPrintable.Decode(more).Some?
    ensures QuotedPrintable.Decode(piece + more) == Some(bytes + QuotedPrintable.Decode(more).value)
  {
    QuotedPrintable.DecodeConcat(piece, more);
  }

  /** What the pass makes of the piece at `k`, on the wire and in the text. */
  function PieceOut(w: seq<Byte>, k: nat, seen: Byte): (seq<Byte>, seq<Byte>)
    requires k < |w| && QuotedPrintable.FirstPiece(w[k..]).Some?
  {
    var piece := QuotedPrintable.FirstPiece(w[k..]).value;
    if piece.length == 1 && w[k] == LF && Before(w, k) != CR then (CRLF, CRLF)
    else (w[k..k + piece.length], piece.bytes)
  }

  lemma {:induction false} PieceOnWire(w: seq<Byte>, k: nat, seen: Byte)
    requires IsSteady(w) && k < |w| && Agrees(w, k, seen)
    requires QuotedPrintable.FirstPiece(w[k..]).Some?
    ensures var n := QuotedPrintable.FirstPiece(w[k..]).value.length;
            WithCrlf(Before(w, k), w[k..]) == PieceOut(w, k, seen).0 + WithCrlf(Before(w, k + n), w[k + n..])
    ensures QuotedPrintable.Decode(PieceOut(w, k, seen).0) == Some(PieceOut(w, k, seen).1)
  {
    var piece := QuotedPrintable.FirstPiece(w[k..]).value;
    var n, bytes := piece.length, piece.bytes;
    assert w[k..][n..] == w[k + n..] && w[k..][..n] == w[k..k + n];
    if n == 1 {
      assert w[k..k + 1] == [w[k]] == bytes;
      WithCrlfFirst(Before(w, k), w[k..]);
      DecodePlain(w[k..k + 1]);
      DecodeCrlf();
    } else {
      WithCrlfThree(Before(w, k), w[k..]);
      DecodeThree(w[k..]);
    }
  }

  lemma {:induction false} DecodePlain(s: seq<Byte>)
    requires |s| == 1 && s[0] != EQUALS
    ensures QuotedPrintable.Decode(s) == Some(s)
  {
    assert s[1..] == [] && [s[0]] + [] == s;
  }

  lemma {:induction false} DecodeCrlf()
    ensures QuotedPrintable.Decode(CRLF) == Some(CRLF)
  {
    DecodePlain([CR]);
    DecodePlain([LF]);
    DecodePrefix([CR], [CR], [LF]);
    assert [CR] + [LF] == CRLF;
  }

  lemma {:induction false} DecodeThree(s: seq<Byte>)
    requires |s| >= 3 && s[0] == EQUALS && QuotedPrintable.FirstPiece(s).Some?
    ensures QuotedPrintable.Decode(s[..3]) == Some(QuotedPrintable.FirstPiece(s).value.bytes)
  {
    assert s == s[..3] + s[3..];
    assert QuotedPrintable.FirstPiece(s[..3]) == QuotedPrintable.FirstPiece(s) by {
      assert QuotedPrintable.SOFT_BREAK <= s <==> QuotedPrintable.SOFT_BREAK <= s[..3];
      assert Escapes.EscapeAt(s, 0) == Escapes.EscapeAt(s[..3], 0);
    }
    var bytes := QuotedPrintable.FirstPiece(s).value.bytes;
    assert s[..3][3..] == [] && bytes + [] == bytes;
  }

  lemma {:induction false} PieceInText(w: seq<Byte>, k: nat, seen: Byte, rest: seq<Byte>)
    requires IsSteady(w) && k < |w| && Agrees(w, k, seen)
    requires QuotedPrintable.FirstPiece(w[k..]).Some?
    ensures WithCrlf(seen, QuotedPrintable.FirstPiece(w[k..]).value.bytes + rest) ==
            PieceOut(w, k, seen).1 + WithCrlf(NextSeen(w, k, seen), rest)
  {
    Escapes.EscapesInSuffix(w, k);
    var bytes := QuotedPrintable.FirstPiece(w[k..]).value.bytes;
    if bytes == [] {
      assert bytes + rest == rest;
      assert WithCrlf(seen, rest) == [] + WithCrlf(seen, rest);
    } else {
      WithCrlfFirst(seen, bytes + rest);
      assert (bytes + rest)[1..] == rest && bytes == [bytes[0]];
    }
  }

  /** The piece at `k` comes out of the pass as the bytes it stands for do. */
  lemma {:induction false} PiecePasses(w: seq<Byte>, k: nat, seen: Byte)
    requires IsSteady(w) && k < |w| && Agrees(w, k, seen)
    requires QuotedPrintable.FirstPiece(w[k..]).Some?
    requires var n := QuotedPrintable.FirstPiece(w[k..]).value.length;
             && QuotedPrintable.Decode(w[k + n..]).Some?
             && QuotedPrintable.Decode(WithCrlf(Before(w, k + n), w[k + n..])) ==
                Some(WithCrlf(NextSeen(w, k, seen), QuotedPrintable.Decode(w[k + n..]).value))
    ensures QuotedPrintable.Decode(w[k..]).Some?
    ensures QuotedPrintable.Decode(WithCrlf(Before(w, k), w[k..])) ==
            Some(WithCrlf(seen, QuotedPrintable.Decode(w[k..]).value))
  {
    hide WithCrlf, IsSteady, Agrees, QuotedPrintable.FirstPiece, PieceOut, NextSeen, Before;
    var piece := QuotedPrintable.FirstPiece(w[k..]).value;
    var n, bytes := piece.length, piece.bytes;
    assert w[k..][n..] == w[k + n..];
    PieceOnWire(w, k, seen);
    PieceInText(w, k, seen, QuotedPrintable.Decode(w[k + n..]).value);
    DecodePrefix(PieceOut(w, k, seen).0, PieceOut(w, k, seen).1, WithCrlf(Before(w, k + n), w[k + n..]));
  }

  // ----- The text of a mail

  datatype Encoding = SevenBit | QuotedText | Base64Text

  /** ASCII without control characters other than tab, LF and CR. */
  predicate IsPlain(text: seq<Byte>) {
    forall k :: 0 <= k < |text| ==>
      text[k] < 0x80 && !(text[k] <= 0x08 || text[k] == 0x0b || text[k] == 0x0c || 0x0e <= text[k] <= 0x1f)
  }

  /** How many bytes before `at` are on its line, a CR or a LF ending one. */
  function RunBefore(text: seq<Byte>, at: nat): nat
    requires at <= |text|
  {
    if at == 0 || text[at - 1] == LF || text[at - 1] == CR then 0 else RunBefore(text, at - 1) + 1
  }

  predicate HasLongLines(text: seq<Byte>) {
    |text| > 128 * 1024 || exists at :: 0 <= at <= |text| && RunBefore(text, at) > 76
  }

  /** What a reader gets from a body. */
  function Decoded(encoding: Encoding, body: seq<Byte>): Option<seq<Byte>> {
    match encoding
    case SevenBit => Some(body)
    case QuotedText => QuotedPrintable.Decode(body)
    case Base64Text => Base64.Read(Base64.Unbroken(body))
  }

  /** `text_part`: the declared transfer encoding, and the body. */
  method Encode(s: seq<Scalar>) returns (encoding: Encoding, body: seq<Byte>)
    ensures encoding == if IsPlain(Utf8All(s)) && !HasLongLines(Utf8All(s)) then SevenBit
                        else if EncodedWords.EscapedUnits(s) < EncodedWords.LatinUnits(s) then QuotedText
                        else Base64Text
    ensures Decoded(encoding, body) == Some(if encoding == Base64Text then Utf8All(s) else WithCrlf(LF, Utf8All(s)))
    ensures IsSevenBit(body) && (encoding != SevenBit ==> QuotedPrintable.FitsLines(body))
  {
    hide WithCrlf, QuotedPrintable.Decode, Base64.Read, Base64.Unbroken, HasLongLines, IsSevenBit;
    hide QuotedPrintable.FitsLines, QuotedPrintable.HasNoTrailingBlank;
    var text := Utf8All(s);
    var encoded;
    if IsPlain(text) && !HasLongLines(text) {
      encoding, encoded := SevenBit, text;
      PlainIsSevenBit(text);
    } else {
      var choice := EncodedWords.Choose(s);
      if choice == EncodedWords.Q {
        encoding := QuotedText;
        encoded := QuotedPrintable.Encode(text);
        QuotedDecodes(encoded);
      } else {
        encoding := Base64Text;
        encoded := Base64.Push([], text);
        assert [] + Base64.Written(text) == Base64.Written(text);
        Base64Decodes(text);
        Base64FitsLines(text);
      }
    }
    body := PushWithCrlf([], encoded);
    assert [] + WithCrlf(LF, encoded) == WithCrlf(LF, encoded);
    CrlfKeepsSevenBit(LF, encoded);
    if encoding != SevenBit {
      CrlfKeepsLines(encoded);
    }
  }

  lemma {:induction false} QuotedDecodes(w: seq<Byte>)
    requires IsSteady(w) && QuotedPrintable.Decode(w).Some?
    ensures QuotedPrintable.Decode(WithCrlf(LF, w)) == Some(WithCrlf(LF, QuotedPrintable.Decode(w).value))
  {
    assert w[0..] == w;
    CrlfAfterEncoding(w, 0, LF);
  }

  lemma {:induction false} Base64Decodes(text: seq<Byte>)
    ensures Base64.Read(Base64.Unbroken(WithCrlf(LF, Base64.Written(text)))) == Some(text)
    ensures IsSevenBit(Base64.Written(text))
  {
    hide WithCrlf, HasNoLoneLf, Base64.Written, Base64.Read, Base64.Unbroken, IsSevenBit;
    LineFeedsFollow(text);
    ProperStays(LF, Base64.Written(text));
    Base64.WrittenIsRead(text);
    Base64.WritesSevenBit(text);
  }

  lemma {:induction false} LineFeedsFollow(text: seq<Byte>)
    ensures HasNoLoneLf(LF, Base64.Written(text))
  {
    hide Base64.Written;
    var written := Base64.Written(text);
    forall k | 0 <= k < |written| ensures !IsLoneLf(LF, written, k) {
      Base64.LayoutOf(text, k);
      if k > 0 {
        Base64.LayoutOf(text, k - 1);
      }
    }
  }

  lemma {:induction false} PlainIsSevenBit(text: seq<Byte>)
    requires IsPlain(text)
    ensures IsSevenBit(text)
  {
  }

  lemma {:induction false} CrlfKeepsSevenBit(previous: Byte, content: seq<Byte>)
    requires IsSevenBit(content)
    ensures IsSevenBit(WithCrlf(previous, content))
    decreases |content|
  {
    if content != [] {
      CrlfKeepsSevenBit(content[0], content[1..]);
    }
  }

  // ----- Line lengths

  /** No line is too long, when `column` characters of the first are already there. */
  predicate FitsFrom(column: nat, s: seq<Byte>)
    decreases |s|
  {
    s == [] ||
    ((QuotedPrintable.IsLineEnd(s, 0) || column < QuotedPrintable.LINE_LENGTH) &&
     FitsFrom(if s[0] == LF then 0 else column + 1, s[1..]))
  }

  lemma {:induction false} FitsFromColumn(s: seq<Byte>, k: nat)
    requires k <= |s|
    ensures FitsFrom(QuotedPrintable.Column(s, k), s[k..]) <==>
            forall at :: k <= at < |s| && !QuotedPrintable.IsLineEnd(s, at) ==>
              QuotedPrintable.Column(s, at) < QuotedPrintable.LINE_LENGTH
    decreases |s| - k
  {
    if k < |s| {
      FitsFromColumn(s, k + 1);
      assert s[k..][1..] == s[k + 1..];
      assert QuotedPrintable.IsLineEnd(s[k..], 0) == QuotedPrintable.IsLineEnd(s, k);
    }
  }

  lemma {:induction false} CrlfKeepsColumns(column: nat, previous: Byte, content: seq<Byte>)
    requires FitsFrom(column, content)
    ensures FitsFrom(column, WithCrlf(previous, content))
    decreases |content|
  {
    if content != [] {
      var rest := WithCrlf(content[0], content[1..]);
      CrlfKeepsColumns(if content[0] == LF then 0 else column + 1, content[0], content[1..]);
      assert ([content[0]] + rest)[1..] == rest;
      if content[0] == LF && previous != CR {
        assert (CRLF + rest)[1..] == [LF] + rest && ([LF] + rest)[1..] == rest;
        assert QuotedPrintable.IsLineEnd([LF] + rest, 0) && QuotedPrintable.IsLineEnd(CRLF + rest, 0);
      } else if QuotedPrintable.IsLineEnd(content, 0) && content[0] == CR {
        assert rest[0] == LF;
        assert QuotedPrintable.IsLineEnd([content[0]] + rest, 0);
      }
    }
  }

  /** The line ending pass makes no line longer. */
  lemma {:induction false} CrlfKeepsLines(content: seq<Byte>)
    requires QuotedPrintable.FitsLines(content)
    ensures QuotedPrintable.FitsLines(WithCrlf(LF, content))
  {
    hide WithCrlf;
    var wire := WithCrlf(LF, content);
    assert content[0..] == content && wire[0..] == wire;
    FitsFromColumn(content, 0);
    CrlfKeepsColumns(0, LF, content);
    FitsFromColumn(wire, 0);
  }

  lemma {:induction false} Base64Column(text: seq<Byte>, k: nat)
    requires k <= |Base64.Written(text)|
    ensures QuotedPrintable.Column(Base64.Written(text), k) == k % 78
  {
    hide Base64.Written;
    if k > 0 {
      Base64Column(text, k - 1);
      Base64.LayoutOf(text, k - 1);
    }
  }

  lemma {:induction false} Base64FitsLines(text: seq<Byte>)
    ensures QuotedPrintable.FitsLines(Base64.Written(text))
  {
    hide Base64.Written;
    var written := Base64.Written(text);
    forall at | 0 <= at < |written| && !QuotedPrintable.IsLineEnd(written, at)
      ensures QuotedPrintable.Column(written, at) < QuotedPrintable.LINE_LENGTH
    {
      Base64Column(text, at);
      Base64.LayoutOf(text, at);
      if at + 1 < |written| {
        Base64.LayoutOf(text, at + 1);
      }
    }
  }
}
