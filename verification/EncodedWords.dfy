/** RFC 2047 encoded words: how the program writes them, and the decoder of the standard. */
module EncodedWords {
  import opened Bytes
  import opened Escapes
  import opened Unicode
  import opened Wrappers
  import Base64

  /** 52 characters, less the `=?UTF-8?Q?` and `?=` around the text. */
  const MAX_Q_LENGTH := 40
  const MAX_B_BYTES := 30

  const QUESTION: Byte := 0x3f

  /** `=?UTF-8?` */
  const CHARSET: seq<Byte> := [EQUALS, QUESTION, 0x55, 0x54, 0x46, HYPHEN, 0x38, QUESTION]

  /** `?=` */
  const CLOSE: seq<Byte> := [QUESTION, EQUALS]

  datatype Encoding = Q | B

  // ----- Which encoding

  function Units(c: Scalar): nat {
    if c < 0x1_0000 then 1 else 2
  }

  predicate IsEscapedUnit(c: Scalar) {
    c <= 0x08 || c == 0x0b || c == 0x0c || 0x0e <= c <= 0x1f || c >= 0x80
  }

  predicate IsLatin(c: Scalar) {
    0x41 <= c <= 0x5a || 0x61 <= c <= 0x7a
  }

  function EscapedUnits(s: seq<Scalar>): nat {
    if s == [] then 0 else (if IsEscapedUnit(s[0]) then Units(s[0]) else 0) + EscapedUnits(s[1..])
  }

  function LatinUnits(s: seq<Scalar>): nat {
    if s == [] then 0 else (if IsLatin(s[0]) then 1 else 0) + LatinUnits(s[1..])
  }

  /** `word_encoding`: Q when the Latin letters outnumber what has to be escaped. */
  method Choose(s: seq<Scalar>) returns (encoding: Encoding)
    ensures encoding == if EscapedUnits(s) < LatinUnits(s) then Q else B
  {
    var escaped: nat, latin: nat := 0, 0;
    assert s[0..] == s;
    for i := 0 to |s|
      invariant escaped + EscapedUnits(s[i..]) == EscapedUnits(s)
      invariant latin + LatinUnits(s[i..]) == LatinUnits(s)
    {
      assert s[i..][1..] == s[i + 1..];
      if IsEscapedUnit(s[i]) {
        escaped := escaped + Units(s[i]);
      } else if IsLatin(s[i]) {
        latin := latin + 1;
      }
    }
    encoding := if escaped < latin then Q else B;
  }

  // ----- The Q encoding (section 4.2)

  predicate IsBare(b: Byte) {
    IsLetter(b) || IsDigit(b) || b in [0x21, 0x2a, 0x2b, 0x2d, 0x2f]
  }

  function Token(text: seq<Byte>, i: nat): (t: seq<Byte>)
    requires i < |text|
    ensures IsToken(t, text[i])
  {
    var b := text[i];
    if IsBare(b) then [b]
    else if b == SPACE && i + 1 < |text| && text[i + 1] != LF && text[i + 1] != CR then [UNDERSCORE]
    else Escape(b)
  }

  function Tokens(text: seq<Byte>): (tokens: seq<seq<Byte>>)
    ensures AreTokens(tokens, text)
  {
    seq(|text|, i requires 0 <= i < |text| => Token(text, i))
  }

  /** `q_encode`. */
  method QEncode(text: seq<Byte>) returns (encoded: seq<Byte>)
    ensures encoded == Flatten(Tokens(text))
  {
    encoded := [];
    for i := 0 to |text|
      invariant encoded == Flatten(Tokens(text)[..i])
    {
      FlattenConcat(Tokens(text)[..i], [Token(text, i)]);
      assert Tokens(text)[..i + 1] == Tokens(text)[..i] + [Token(text, i)];
      assert Flatten([Token(text, i)]) == Token(text, i);
      encoded := encoded + Token(text, i);
    }
    assert Tokens(text)[..|text|] == Tokens(text);
  }

  function QDecode(s: seq<Byte>): Option<seq<Byte>> {
    if s == [] then Some([])
    else if s[0] != EQUALS then
      match QDecode(s[1..])
      case None => None
      case Some(rest) => Some([if s[0] == UNDERSCORE then SPACE else s[0]] + rest)
    else if EscapeAt(s, 0).Some? then
      match QDecode(s[3..])
      case None => None
      case Some(rest) => Some([EscapeAt(s, 0).value] + rest)
    else None
  }

  /** What an encoded word may hold: no space and no question mark. */
  predicate IsWordText(s: seq<Byte>) {
    forall k :: 0 <= k < |s| ==> 0x20 < s[k] < 0x7f && s[k] != QUESTION
  }

  lemma {:induction false} QDecodeToken(text: seq<Byte>, i: nat, rest: seq<Byte>)
    requires i < |text|
    ensures QDecode(Token(text, i) + rest) ==
            if QDecode(rest).None? then None else Some([text[i]] + QDecode(rest).value)
  {
    var t := Token(text, i);
    if |t| == 1 {
      assert (t + rest)[1..] == rest;
    } else {
      assert (t + rest)[3..] == rest;
      assert EscapeAt(t + rest, 0) == EscapeAt(t, 0);
    }
  }

  lemma {:induction false} TokenIsWordText(text: seq<Byte>, i: nat)
    requires i < |text|
    ensures IsWordText(Token(text, i))
  {
  }

  /** A stretch of the encoded text decodes to the bytes it was written for. */
  lemma {:induction false} QDecodesSlice(text: seq<Byte>, i: nat, j: nat)
    requires i <= j <= |text|
    ensures QDecode(Flatten(Tokens(text)[i..j])) == Some(text[i..j]) && IsWordText(Flatten(Tokens(text)[i..j]))
    decreases j - i
  {
    hide IsToken, QDecode, Token;
    var slice := Tokens(text)[i..j];
    if i == j {
      assert slice == [] && text[i..j] == [];
      QDecodeNothing();
    } else {
      QDecodesSlice(text, i + 1, j);
      assert slice[1..] == Tokens(text)[i + 1..j] && slice[0] == Token(text, i);
      QDecodeToken(text, i, Flatten(slice[1..]));
      TokenIsWordText(text, i);
      assert [text[i]] + text[i + 1..j] == text[i..j];
    }
  }

  lemma {:induction false} QDecodeNothing()
    ensures QDecode([]) == Some([])
  {
  }

  // ----- Words of a line

  /** The bytes an encoded word stands for. */
  function WordBytes(encoding: Encoding, text: seq<Byte>): Option<seq<Byte>> {
    match encoding
    case Q => QDecode(text)
    case B => Base64.Read(text)
  }

  /** A word of at most 75 characters (section 2) that holds whole characters (section 5). */
  ghost predicate IsWord(encoding: Encoding, text: seq<Byte>) {
    && IsWordText(text) && |text| + 12 <= 75
    && WordBytes(encoding, text).Some? && IsUtf8(WordBytes(encoding, text).value)
  }

  ghost predicate AreWords(encoding: Encoding, texts: seq<seq<Byte>>) {
    forall k :: 0 <= k < |texts| ==> IsWord(encoding, texts[k])
  }

  /** What the words stand for together. */
  function AllBytes(encoding: Encoding, texts: seq<seq<Byte>>): Option<seq<Byte>> {
    if texts == [] then Some([])
    else
      match WordBytes(encoding, texts[0])
      case None => None
      case Some(first) =>
        match AllBytes(encoding, texts[1..])
        case None => None
        case Some(rest) => Some(first + rest)
  }

  lemma {:induction false} AllBytesAppend(encoding: Encoding, texts: seq<seq<Byte>>, text: seq<Byte>)
    requires AllBytes(encoding, texts).Some? && WordBytes(encoding, text).Some?
    ensures AllBytes(encoding, texts + [text]) ==
      Some(AllBytes(encoding, texts).value + WordBytes(encoding, text).value)
    decreases |texts|
  {
    hide WordBytes;
    var last := WordBytes(encoding, text).value;
    if texts == [] {
      assert (texts + [text])[1..] == [] && last + [] == last && [] + last == last;
    } else {
      assert (texts + [text])[1..] == texts[1..] + [text];
      AllBytesAppend(encoding, texts[1..], text);
      var first, rest := WordBytes(encoding, texts[0]).value, AllBytes(encoding, texts[1..]).value;
      assert first + (rest + last) == first + rest + last;
    }
  }

  // ----- Q encoded text in pieces

  /** A word is left shorter than this only when nothing comes behind it. */
  const FILLED := 29

  predicate AreFilled(texts: seq<seq<Byte>>) {
    forall k :: 0 <= k < |texts| - 1 ==> |texts[k]| >= FILLED
  }

  /** A cut inside an escape moves before it. */
  function BeforeEscape(piece: seq<Byte>): (end: nat)
    ensures end <= |piece|
  {
    var n := |piece|;
    if n >= 1 && piece[n - 1] == EQUALS then n - 1
    else if n >= 2 && piece[n - 2] == EQUALS && IsHexDigit(piece[n - 1]) then n - 2
    else n
  }

  lemma {:induction false} BeforeEscapeIsBoundary(rest: seq<Byte>, n: nat)
    requires IsEscaped(rest) && n <= |rest|
    ensures var end := BeforeEscape(rest[..n]);
            IsBoundary(rest, end) && n <= end + 2 && (n == |rest| ==> end == n)
  {
    assert forall k :: 0 <= k < |rest| && rest[k] == EQUALS ==> EscapeAt(rest, k).Some?;
  }

  /** Where the next piece ends. */
  method PieceEnd(rest: seq<Byte>) returns (end: nat)
    requires rest != [] && IsEscaped(rest) && IsWhole(rest)
    ensures 0 < end <= |rest| && end <= MAX_Q_LENGTH && (end < |rest| ==> end >= FILLED)
    ensures IsBoundary(rest, end) && !ContinuationAt(rest, end)
  {
    hide EscapeAt, IsWhole, IsEscaped, BeforeEscape;
    var widest: nat := if |rest| < MAX_Q_LENGTH then |rest| else MAX_Q_LENGTH;
    end := BeforeEscape(rest[..widest]);
    BeforeEscapeIsBoundary(rest, widest);
    NothingAtTheEnd(rest);
    var fallback := widest;
    if end > 0 {
      fallback := end;
    }
    ghost var start, steps: nat := end, 0;
    while end > 0 && EscapeAt(rest, end).Some? && 0x80 <= EscapeAt(rest, end).value < 0xc2
      invariant IsBoundary(rest, end) && end == start - 3 * steps
      invariant steps > 0 ==> start < |rest|
      invariant steps > 0 ==> IsLeadBehind(rest, start)
      invariant steps > 1 ==> ContinuationAt(rest, start - 3)
      invariant steps > 2 ==> ContinuationAt(rest, start - 6)
      invariant steps <= 3
      decreases end
    {
      WholeThere(rest, end);
      end := end - 3;
      EscapeBehindEscape(rest, end);
      steps := steps + 1;
    }
    if end < |rest| {
      WholeThere(rest, end);
    }
    if end == 0 {
      end := fallback;
    }
  }

  /** Where a character of the text starts, or its end. */
  predicate IsBetween(text: seq<Byte>, p: nat) {
    p <= |text| && (p < |text| ==> !IsContinuation(text[p]))
  }

  /** A clean cut of the encoded text is a place between two characters of the text. */
  lemma {:induction false} CutIsBetween(text: seq<Byte>, p: nat, end: nat) returns (q: nat)
    requires p <= |text|
    requires IsBoundary(Flatten(Tokens(text)[p..]), end) && !ContinuationAt(Flatten(Tokens(text)[p..]), end)
    ensures p <= q && IsBetween(text, q)
    ensures Flatten(Tokens(text)[p..])[end..] == Flatten(Tokens(text)[q..])
    ensures Flatten(Tokens(text)[p..])[..end] == Flatten(Tokens(text)[p..q])
  {
    hide Token, EscapeAt, Flatten;
    var tokens := Tokens(text)[p..];
    assert AreTokens(tokens, text[p..]);
    var n := BoundaryBetween(tokens, text[p..], end);
    q := p + n;
    assert tokens[..n] == Tokens(text)[p..q] && tokens[n..] == Tokens(text)[q..];
    if q < |text| {
      assert IsToken(tokens[n], text[q]);
      EscapeOfToken(tokens, text[p..], n);
    }
  }

  /** One more piece: whole characters of the text, and short enough for a word. */
  lemma {:induction false} PieceIsWord(s: seq<Scalar>, p: nat, end: nat) returns (q: nat)
    requires IsBetween(Utf8All(s), p)
    requires var rest := Flatten(Tokens(Utf8All(s))[p..]);
             IsBoundary(rest, end) && 0 < end <= MAX_Q_LENGTH && !ContinuationAt(rest, end)
    ensures p <= q && IsBetween(Utf8All(s), q)
    ensures var rest := Flatten(Tokens(Utf8All(s))[p..]);
            && rest[end..] == Flatten(Tokens(Utf8All(s))[q..])
            && IsWord(Q, rest[..end]) && QDecode(rest[..end]) == Some(Utf8All(s)[p..q])
  {
    hide Token, QDecode, IsWordText, EscapeAt, Flatten, Tokens;
    q := CutIsBetween(Utf8All(s), p, end);
    QDecodesSlice(Utf8All(s), p, q);
    StretchIsUtf8(s, p, q);
  }

  /** The loop of `split_q_encoded`, when the text up to `p` is in pieces. */
  ghost predicate IsSplit(encoded: seq<Byte>, s: seq<Scalar>, pieces: seq<seq<Byte>>, rest: seq<Byte>, p: nat) {
    && IsBetween(Utf8All(s), p)
    && rest == Flatten(Tokens(Utf8All(s))[p..]) && IsEscaped(rest) && IsWhole(rest)
    && Flatten(pieces) + rest == encoded
    && (forall k :: 0 <= k < |pieces| ==> 0 < |pieces[k]| <= MAX_Q_LENGTH)
    && AreWords(Q, pieces) && AllBytes(Q, pieces) == Some(Utf8All(s)[..p])
  }

  lemma {:induction false} SplitAdds(encoded: seq<Byte>, s: seq<Scalar>, pieces: seq<seq<Byte>>, rest: seq<Byte>,
                                     p: nat, end: nat)
    returns (q: nat)
    requires IsSplit(encoded, s, pieces, rest, p) && 0 < end <= |rest| && end <= MAX_Q_LENGTH
    requires IsBoundary(rest, end) && !ContinuationAt(rest, end)
    ensures IsSplit(encoded, s, pieces + [rest[..end]], rest[end..], q)
  {
    hide Token, QDecode, IsWordText, EscapeAt, Flatten, Tokens, IsWhole, IsEscaped, IsUtf8, AllBytes, IsWord;
    q := PieceIsWord(s, p, end);
    EscapedParts(rest, end);
    WholeSuffix(rest, end);
    WordHasBytes(rest[..end]);
    AllBytesAppend(Q, pieces, rest[..end]);
    TextJoins(Utf8All(s), p, q);
    FlattenGrows(pieces, rest, end);
  }

  lemma {:induction false} TextJoins(text: seq<Byte>, p: nat, q: nat)
    requires p <= q <= |text|
    ensures text[..q] == text[..p] + text[p..q]
  {
  }

  lemma {:induction false} FlattenGrows(pieces: seq<seq<Byte>>, rest: seq<Byte>, end: nat)
    requires end <= |rest|
    ensures Flatten(pieces + [rest[..end]]) + rest[end..] == Flatten(pieces) + rest
  {
    FlattenConcat(pieces, [rest[..end]]);
    assert Flatten([rest[..end]]) == rest[..end] + [];
    assert Flatten(pieces) + rest == Flatten(pieces) + rest[..end] + rest[end..];
  }

  lemma {:induction false} WordHasBytes(text: seq<Byte>)
    requires IsWord(Q, text)
    ensures WordBytes(Q, text).Some? && WordBytes(Q, text) == QDecode(text)
  {
  }

  /** `split_q_encoded`. */
  method Split(encoded: seq<Byte>, ghost s: seq<Scalar>) returns (pieces: seq<seq<Byte>>)
    requires encoded == Flatten(Tokens(Utf8All(s)))
    ensures Flatten(pieces) == encoded
    ensures forall k :: 0 <= k < |pieces| ==> 0 < |pieces[k]| <= MAX_Q_LENGTH
    ensures AreFilled(pieces)
    ensures AreWords(Q, pieces) && AllBytes(Q, pieces) == Some(Utf8All(s))
  {
    hide Token, QDecode, IsWordText, EscapeAt, Flatten, Tokens, IsWhole, IsEscaped, IsUtf8, AllBytes, IsWord;
    hide IsBoundary, AreWords;
    pieces := [];
    var rest := encoded;
    ghost var p: nat := 0;
    SplitStart(encoded, s);
    while rest != []
      invariant IsSplit(encoded, s, pieces, rest, p)
      invariant AreFilled(pieces) && (rest != [] && pieces != [] ==> |pieces[|pieces| - 1]| >= FILLED)
      decreases |rest|
    {
      var end := PieceEnd(rest);
      p := SplitAdds(encoded, s, pieces, rest, p, end);
      pieces := pieces + [rest[..end]];
      rest := rest[end..];
    }
    SplitEnd(encoded, s, pieces, p);
  }

  lemma {:induction false} SplitStart(encoded: seq<Byte>, s: seq<Scalar>)
    requires encoded == Flatten(Tokens(Utf8All(s)))
    ensures IsSplit(encoded, s, [], encoded, 0)
  {
    EscapedTokens(Tokens(Utf8All(s)), Utf8All(s));
    WholeTokens(Tokens(Utf8All(s)), s);
    if Utf8All(s) != [] {
      Utf8IsPlaced(s, 0);
    }
    assert Tokens(Utf8All(s))[0..] == Tokens(Utf8All(s)) && Utf8All(s)[..0] == [];
    assert Flatten([]) + encoded == encoded;
  }

  lemma {:induction false} SplitEnd(encoded: seq<Byte>, s: seq<Scalar>, pieces: seq<seq<Byte>>, p: nat)
    requires IsSplit(encoded, s, pieces, [], p)
    ensures Flatten(pieces) == encoded && AllBytes(Q, pieces) == Some(Utf8All(s))
  {
    if p < |Utf8All(s)| {
      SomethingLeft(Utf8All(s), p);
    }
    assert Utf8All(s)[..|Utf8All(s)|] == Utf8All(s);
    assert Flatten(pieces) + [] == Flatten(pieces);
  }

  lemma {:induction false} SomethingLeft(text: seq<Byte>, p: nat)
    requires p < |text|
    ensures Flatten(Tokens(text)[p..]) != []
  {
    var tokens := Tokens(text)[p..];
    assert IsToken(tokens[0], text[p]);
  }

  // ----- The B encoding (section 4.1)

  lemma {:induction false} BWord(word: seq<Byte>)
    requires IsUtf8(word) && |word| <= MAX_B_BYTES
    ensures IsWord(B, Base64.Encoded(word)) && WordBytes(B, Base64.Encoded(word)) == Some(word)
  {
    hide Base64.Read, Base64.Encoded;
    Base64.EncodedIsRead(word);
    EncodedIsWordText(word);
  }

  lemma {:induction false} EncodedIsWordText(content: seq<Byte>)
    ensures IsWordText(Base64.Encoded(content))
    decreases |content|
  {
    if content != [] {
      QuadIsWordText(if |content| <= 3 then content else content[..3]);
      if |content| > 3 {
        EncodedIsWordText(content[3..]);
      }
    }
  }

  lemma {:induction false} QuadIsWordText(group: seq<Byte>)
    requires 1 <= |group| <= 3
    ensures IsWordText(Base64.Quad(group))
  {
  }

  /** The loop of `encode_word` over characters, when `done` is in words or in the word being filled. */
  ghost predicate IsChunked(done: seq<Scalar>, texts: seq<seq<Byte>>, word: seq<Byte>) {
    && |word| <= MAX_B_BYTES && IsUtf8(word)
    && AreWords(B, texts) && AllBytes(B, texts).Some?
    && AllBytes(B, texts).value + word == Utf8All(done)
  }

  lemma {:induction false} ChunkEnds(done: seq<Scalar>, texts: seq<seq<Byte>>, word: seq<Byte>)
    requires IsChunked(done, texts, word)
    ensures IsChunked(done, texts + [Base64.Encoded(word)], [])
  {
    hide IsWord, WordBytes, AllBytes;
    BWord(word);
    AllBytesAppend(B, texts, Base64.Encoded(word));
    EmptyIsUtf8();
    assert AllBytes(B, texts).value + word + [] == AllBytes(B, texts).value + word;
  }

  lemma {:induction false} ChunkGrows(done: seq<Scalar>, texts: seq<seq<Byte>>, word: seq<Byte>, c: Scalar)
    requires IsChunked(done, texts, word) && |word| + |Utf8(c)| <= MAX_B_BYTES
    ensures IsChunked(done + [c], texts, word + Utf8(c))
  {
    hide IsWord, WordBytes, AllBytes, Utf8;
    AppendIsUtf8(word, c);
    Utf8Concat(done, [c]);
    OneIsUtf8(c);
    assert AllBytes(B, texts).value + (word + Utf8(c)) == AllBytes(B, texts).value + word + Utf8(c);
  }

  /** The words of B: as many whole characters as fit in 30 bytes. */
  method Chunks(s: seq<Scalar>) returns (texts: seq<seq<Byte>>)
    ensures AreWords(B, texts) && AllBytes(B, texts) == Some(Utf8All(s))
    ensures AreFilled(texts)
  {
    hide AreWords, AllBytes, Utf8, IsUtf8;
    texts := [];
    var word: seq<Byte> := [];
    ChunksStart(s);
    for i := 0 to |s|
      invariant IsChunked(s[..i], texts, word)
      invariant forall k :: 0 <= k < |texts| ==> |texts[k]| >= FILLED
    {
      if word != [] && |word| + |Utf8(s[i])| > MAX_B_BYTES {
        ChunkEnds(s[..i], texts, word);
        texts := texts + [Base64.Encoded(word)];
        word := [];
      }
      ChunkGrows(s[..i], texts, word, s[i]);
      assert s[..i + 1] == s[..i] + [s[i]];
      word := word + Utf8(s[i]);
    }
    assert s[..|s|] == s;
    if word != [] {
      ChunkEnds(s, texts, word);
      texts := texts + [Base64.Encoded(word)];
    }
    assert AllBytes(B, texts).value + [] == AllBytes(B, texts).value;
  }

  lemma {:induction false} ChunksStart(s: seq<Scalar>)
    ensures IsChunked(s[..0], [], [])
  {
    assert s[..0] == [];
    EmptyIsUtf8();
  }

  lemma {:induction false} EmptyIsUtf8()
    ensures IsUtf8([])
  {
    assert Utf8All([]) == [];
  }

  lemma {:induction false} OneIsUtf8(c: Scalar)
    ensures Utf8All([c]) == Utf8(c)
  {
    assert Utf8(c) + [] == Utf8(c);
  }

  lemma {:induction false} AppendIsUtf8(word: seq<Byte>, c: Scalar)
    requires IsUtf8(word)
    ensures IsUtf8(word + Utf8(c))
  {
    var cs: seq<Scalar> :| word == Utf8All(cs);
    Utf8Concat(cs, [c]);
    OneIsUtf8(c);
    assert word + Utf8(c) == Utf8All(cs + [c]);
  }

  // ----- The line of words

  function Open(encoding: Encoding): seq<Byte> {
    CHARSET + [if encoding == Q then 0x51 else 0x42, QUESTION]
  }

  /** The words, with a space between two. */
  function Line(encoding: Encoding, texts: seq<seq<Byte>>): seq<Byte>
    requires texts != []
  {
    Open(encoding) + texts[0] + CLOSE + if |texts| == 1 then [] else [SPACE] + Line(encoding, texts[1..])
  }

  function FindQuestion(s: seq<Byte>): (at: Option<nat>)
    ensures at.Some? ==> at.value < |s|
  {
    if s == [] then None
    else if s[0] == QUESTION then Some(0)
    else
      match FindQuestion(s[1..])
      case None => None
      case Some(at) => Some(at + 1)
  }

  /** The standard's reading of a line of encoded words, the space between two ignored (section 6.2). */
  function DecodeLine(s: seq<Byte>): Option<seq<Byte>>
    decreases |s|
  {
    if |s| < 10 || s[..8] != CHARSET || s[9] != QUESTION || (s[8] != 0x51 && s[8] != 0x42) then None
    else
      var encoding := if s[8] == 0x51 then Q else B;
      match FindQuestion(s[10..])
      case None => None
      case Some(at) =>
        var text, after := s[10..][..at], s[10..][at..];
        if !(CLOSE <= after) then None
        else
          match WordBytes(encoding, text)
          case None => None
          case Some(first) =>
            if after[2..] == [] then Some(first)
            else if after[2] != SPACE then None
            else
              match DecodeLine(after[3..])
              case None => None
              case Some(rest) => Some(first + rest)
  }

  lemma {:induction false} FindsClose(text: seq<Byte>, more: seq<Byte>)
    requires IsWordText(text)
    ensures FindQuestion(text + CLOSE + more) == Some(|text|)
    decreases |text|
  {
    if text != [] {
      assert (text + CLOSE + more)[1..] == text[1..] + CLOSE + more;
      FindsClose(text[1..], more);
    }
  }

  lemma {:induction false} DecodesWord(encoding: Encoding, text: seq<Byte>, more: seq<Byte>)
    requires IsWord(encoding, text)
    ensures var first := WordBytes(encoding, text).value;
            DecodeLine(Open(encoding) + text + CLOSE + more) ==
            if more == [] then Some(first)
            else if more[0] != SPACE then None
            else if DecodeLine(more[1..]).None? then None
            else Some(first + DecodeLine(more[1..]).value)
  {
    hide WordBytes, FindQuestion, IsUtf8;
    WordParts(encoding, text, more);
    FindsClose(text, more);
  }

  lemma {:induction false} WordParts(encoding: Encoding, text: seq<Byte>, more: seq<Byte>)
    ensures var s := Open(encoding) + text + CLOSE + more;
            && |s| >= 12 && s[..8] == CHARSET && s[8] == (if encoding == Q then 0x51 else 0x42) && s[9] == QUESTION
            && s[10..] == text + CLOSE + more
            && s[10..][..|text|] == text && s[10..][|text|..] == CLOSE + more
    ensures CLOSE <= CLOSE + more && (CLOSE + more)[2..] == more
    ensures more != [] ==> (CLOSE + more)[2] == more[0] && (CLOSE + more)[3..] == more[1..]
  {
  }

  lemma {:induction false} DecodesLine(encoding: Encoding, texts: seq<seq<Byte>>)
    requires texts != [] && AreWords(encoding, texts)
    ensures DecodeLine(Line(encoding, texts)) == AllBytes(encoding, texts)
    decreases |texts|
  {
    hide DecodeLine, WordBytes, IsUtf8, IsWordText;
    var first := WordBytes(encoding, texts[0]).value;
    if |texts| == 1 {
      DecodesWord(encoding, texts[0], []);
      assert texts[1..] == [] && first + [] == first;
    } else {
      var more := [SPACE] + Line(encoding, texts[1..]);
      DecodesWord(encoding, texts[0], more);
      assert more[1..] == Line(encoding, texts[1..]);
      DecodesLine(encoding, texts[1..]);
    }
  }

  /** The words joined by `?= =?UTF-8?Q?` between the opening and the closing. */
  method Join(encoding: Encoding, texts: seq<seq<Byte>>) returns (line: seq<Byte>)
    requires texts != []
    ensures line == Line(encoding, texts)
  {
    line := [];
    for i := 0 to |texts| - 1
      invariant line + Line(encoding, texts[i..]) == Line(encoding, texts)
    {
      assert texts[i..][1..] == texts[i + 1..];
      var before := line;
      line := line + Open(encoding) + texts[i] + CLOSE + [SPACE];
      assert before + (Open(encoding) + texts[i] + CLOSE + ([SPACE] + Line(encoding, texts[i + 1..]))) ==
        line + Line(encoding, texts[i + 1..]);
    }
    line := line + (Open(encoding) + texts[|texts| - 1] + CLOSE);
    assert Line(encoding, texts[|texts| - 1..]) == Open(encoding) + texts[|texts| - 1] + CLOSE + [];
  }

  /** `encode_word`. The ghost result is the words of the line. */
  method EncodeWord(s: seq<Scalar>, encoding: Encoding) returns (line: seq<Byte>, ghost words: seq<seq<Byte>>)
    ensures words != [] && AreWords(encoding, words) && line == Line(encoding, words) && AreFilled(words)
    ensures DecodeLine(line) == Some(Utf8All(s))
  {
    hide IsWord, WordBytes, AllBytes, Flatten, Tokens, Line, DecodeLine;
    var texts;
    if encoding == Q {
      var encoded := QEncode(Utf8All(s));
      if |encoded| > MAX_Q_LENGTH {
        texts := Split(encoded, s);
      } else {
        texts := [encoded];
        OneQWord(s);
      }
    } else if (|Utf8All(s)| + 2) / 3 * 4 > MAX_B_BYTES {
      texts := Chunks(s);
    } else {
      texts := [Base64.Encoded(Utf8All(s))];
      BWord(Utf8All(s));
      OneWord(B, texts[0]);
    }
    EmptyHasNoBytes(encoding);
    words := texts;
    line := Join(encoding, texts);
    DecodesLine(encoding, texts);
  }

  lemma {:induction false} EmptyHasNoBytes(encoding: Encoding)
    ensures AllBytes(encoding, []) == Some([]) && Flatten([]) == []
  {
  }

  lemma {:induction false} OneWord(encoding: Encoding, text: seq<Byte>)
    requires WordBytes(encoding, text).Some?
    ensures AllBytes(encoding, [text]) == WordBytes(encoding, text)
  {
    assert [text][1..] == [] && WordBytes(encoding, text).value + [] == WordBytes(encoding, text).value;
  }

  lemma {:induction false} OneQWord(s: seq<Scalar>)
    requires |Flatten(Tokens(Utf8All(s)))| <= MAX_Q_LENGTH
    ensures IsWord(Q, Flatten(Tokens(Utf8All(s))))
    ensures AllBytes(Q, [Flatten(Tokens(Utf8All(s)))]) == Some(Utf8All(s))
  {
    hide IsToken, QDecode, Token;
    var text := Utf8All(s);
    assert Tokens(text)[0..|text|] == Tokens(text) && text[0..|text|] == text;
    QDecodesSlice(text, 0, |text|);
    OneWord(Q, Flatten(Tokens(text)));
  }
}
