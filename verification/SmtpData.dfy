/** What is sent after DATA, and what a receiver makes of it (section 4.5.2 of RFC 5321). */
module SmtpData {
  import opened Bytes
  import opened Wrappers

  const END: seq<Byte> := [DOT, CR, LF]

  // ----- The rule, byte by byte

  function Written(before: Option<Byte>, b: Byte): seq<Byte> {
    if before == Some(CR) && b != LF then [LF] + (if b == DOT then [DOT] else []) + [b]
    else if b == LF && before != Some(CR) then [CR, LF]
    else if b == DOT && (before == None || before == Some(LF)) then [DOT, DOT]
    else [b]
  }

  function Ending(before: Option<Byte>): seq<Byte> {
    if before == Some(LF) then END
    else if before == Some(CR) then [LF] + END
    else CRLF + END
  }

  function Stuffed(before: Option<Byte>, message: seq<Byte>): seq<Byte>
    decreases |message|
  {
    if message == [] then Ending(before)
    else Written(before, message[0]) + Stuffed(Some(message[0]), message[1..])
  }

  // ----- The program

  predicate IsSpecial(b: Byte) {
    b == CR || b == LF || b == DOT
  }

  predicate IsPlain(s: seq<Byte>) {
    forall k :: 0 <= k < |s| ==> !IsSpecial(s[k])
  }

  /** How many bytes need nothing. */
  function PlainLength(s: seq<Byte>): (n: nat)
    ensures n <= |s| && IsPlain(s[..n]) && (n < |s| ==> IsSpecial(s[n]))
  {
    if s == [] || IsSpecial(s[0]) then 0
    else
      var n := PlainLength(s[1..]);
      assert s[..n + 1] == [s[0]] + s[1..][..n];
      n + 1
  }

  function Last(s: seq<Byte>, before: Option<Byte>): Option<Byte> {
    if s == [] then before else Some(s[|s| - 1])
  }

  lemma {:induction false} StuffedFirst(before: Option<Byte>, s: seq<Byte>, rest: seq<Byte>)
    requires s != []
    ensures Stuffed(before, s + rest) == Written(before, s[0]) + Stuffed(Some(s[0]), s[1..] + rest)
  {
    assert (s + rest)[1..] == s[1..] + rest;
  }

  lemma {:induction false} Regroup(first: seq<Byte>, s: seq<Byte>, more: seq<Byte>)
    requires s != []
    ensures first + (s[1..] + more) == first + s[1..] + more
    ensures [s[0]] + s[1..] == s
  {
  }

  lemma {:induction false} StuffedPlain(before: Option<Byte>, plain: seq<Byte>, rest: seq<Byte>)
    requires IsPlain(plain) && (plain != [] ==> before != Some(CR))
    ensures Stuffed(before, plain + rest) == plain + Stuffed(Last(plain, before), rest)
    decreases |plain|
  {
    hide Stuffed;
    if plain == [] {
      assert plain + rest == rest;
    } else {
      StuffedFirst(before, plain, rest);
      StuffedPlain(Some(plain[0]), plain[1..], rest);
      Regroup([plain[0]], plain, Stuffed(Last(plain, before), rest));
    }
  }

  /** The skip-ahead scan takes the steps of the rule. */
  lemma {:induction false} SendStep(before: Option<Byte>, rest: seq<Byte>, at: nat)
    requires at < |rest| && IsPlain(rest[..at]) && (at > 0 ==> before != Some(CR))
    ensures Stuffed(before, rest) ==
      rest[..at] + Written(Last(rest[..at], before), rest[at]) + Stuffed(Some(rest[at]), rest[at + 1..])
  {
    assert rest == rest[..at] + rest[at..] && rest[at..][1..] == rest[at + 1..];
    StuffedPlain(before, rest[..at], rest[at..]);
  }

  /** What `smtp_data` puts out for a byte that may need something. */
  method SendSpecial(data: seq<Byte>, before: Option<Byte>, byte: Byte) returns (longer: seq<Byte>)
    ensures longer == data + Written(before, byte)
  {
    longer := data;
    if before == Some(CR) && byte != LF {
      longer := longer + [LF];
      if byte == DOT {
        longer := longer + [DOT];
      }
    } else if byte == LF && before != Some(CR) {
      longer := longer + [CR];
    } else if byte == DOT && (before == Some(LF) || before == None) {
      longer := longer + [DOT];
    }
    longer := longer + [byte];
  }

  /** `smtp_data`: copies up to the next byte that may need something. */
  method Send(message: seq<Byte>) returns (data: seq<Byte>)
    ensures data == Stuffed(None, message)
  {
    hide Stuffed, Written, Ending, Last;
    data := [];
    var previous: Option<Byte> := None;
    var rest := message;
    while true
      invariant data + Stuffed(previous, rest) == Stuffed(None, message)
      decreases |rest|
    {
      var at := if previous == Some(CR) then 0 else PlainLength(rest);
      if at == |rest| {
        break;
      }
      var before := Last(rest[..at], previous);
      SendStep(previous, rest, at);
      data := SendSpecial(data + rest[..at], before, rest[at]);
      previous := Some(rest[at]);
      rest := rest[at + 1..];
    }
    assert rest + [] == rest && rest[..|rest|] == rest;
    StuffedPlain(previous, rest, []);
    StuffedEnd(Last(rest, previous));
    data := data + rest;
    data := data + Ending(Last(rest, previous));
  }

  // ----- The lines of a message

  /** Where the first line ends: at a CR, a LF or the end of the message. */
  function LineLength(message: seq<Byte>): (n: nat)
    ensures n <= |message| && forall k :: 0 <= k < n ==> message[k] != CR && message[k] != LF
    ensures n < |message| ==> message[n] == CR || message[n] == LF
  {
    if message == [] || message[0] == CR || message[0] == LF then 0 else LineLength(message[1..]) + 1
  }

  /** The line break at the end of the first line: CRLF, a lone CR or a lone LF. */
  function BreakLength(message: seq<Byte>): (n: nat)
    ensures LineLength(message) + n <= |message|
    ensures n == 0 <==> LineLength(message) == |message|
  {
    var at := LineLength(message);
    if at == |message| then 0
    else if message[at] == CR && at + 1 < |message| && message[at + 1] == LF then 2
    else 1
  }

  /**
    * Every line of the message, however it ends. A message that does not end in
    * a line break ends in a line all the same.
    */
  function Lines(message: seq<Byte>): seq<seq<Byte>>
    decreases |message|
  {
    var at, skipped := LineLength(message), BreakLength(message);
    var rest := message[at + skipped..];
    if rest == [] then [message[..at]] else [message[..at]] + Lines(rest)
  }

  function DotStuffed(line: seq<Byte>): seq<Byte> {
    if line != [] && line[0] == DOT then [DOT] + line else line
  }

  function Wire(lines: seq<seq<Byte>>): seq<Byte> {
    if lines == [] then [] else DotStuffed(lines[0]) + CRLF + Wire(lines[1..])
  }

  predicate IsLineStart(before: Option<Byte>) {
    before == None || before == Some(LF)
  }

  predicate IsText(line: seq<Byte>) {
    forall k :: 0 <= k < |line| ==> line[k] != CR && line[k] != LF
  }

  /** A line of the message goes out with its first dot doubled, and nothing else changed. */
  lemma {:induction false} StuffedText(before: Option<Byte>, line: seq<Byte>, rest: seq<Byte>)
    requires IsText(line) && before != Some(CR)
    ensures Stuffed(before, line + rest) ==
      (if IsLineStart(before) then DotStuffed(line) else line) + Stuffed(Last(line, before), rest)
    decreases |line|
  {
    hide Stuffed;
    if line == [] {
      assert line + rest == rest;
    } else {
      StuffedFirst(before, line, rest);
      StuffedText(Some(line[0]), line[1..], rest);
      Regroup(Written(before, line[0]), line, Stuffed(Last(line, before), rest));
      assert Written(before, line[0]) + line[1..] == if IsLineStart(before) then DotStuffed(line) else line;
    }
  }

  /** After a lone CR the line goes on as after CRLF. */
  lemma {:induction false} StuffedAfterCr(rest: seq<Byte>)
    requires rest == [] || rest[0] != LF
    ensures Stuffed(Some(CR), rest) == [LF] + Stuffed(Some(LF), rest)
  {
    if rest != [] {
      assert Written(Some(CR), rest[0]) == [LF] + Written(Some(LF), rest[0]);
    }
  }

  /** The line break, whatever it was, goes out as CRLF. */
  lemma {:induction false} StuffedBreak(before: Option<Byte>, message: seq<Byte>, skipped: nat)
    requires before != Some(CR) && LineLength(message) == 0 && skipped == BreakLength(message)
    requires message == [] ==> before != Some(LF)
    ensures Stuffed(before, message) == CRLF + Stuffed(Some(LF), message[skipped..])
  {
    if message != [] {
      if message[0] == LF {
        assert Stuffed(before, message) == CRLF + Stuffed(Some(LF), message[1..]);
      } else if skipped == 2 {
        assert message[1..][1..] == message[2..];
        assert Stuffed(Some(CR), message[1..]) == [LF] + Stuffed(Some(LF), message[2..]);
        assert [CR] + ([LF] + Stuffed(Some(LF), message[2..])) == CRLF + Stuffed(Some(LF), message[2..]);
      } else {
        StuffedAfterCr(message[1..]);
        assert [CR] + ([LF] + Stuffed(Some(LF), message[1..])) == CRLF + Stuffed(Some(LF), message[1..]);
      }
    }
  }

  function AfterLine(message: seq<Byte>): seq<Byte> {
    message[LineLength(message) + BreakLength(message)..]
  }

  lemma {:induction false} SendsFirstLine(before: Option<Byte>, message: seq<Byte>)
    requires IsLineStart(before) && (message == [] ==> before == None)
    ensures Stuffed(before, message) ==
      DotStuffed(message[..LineLength(message)]) + (CRLF + Stuffed(Some(LF), AfterLine(message)))
  {
    hide Stuffed, LineLength, BreakLength, DotStuffed;
    var at, skipped := LineLength(message), BreakLength(message);
    var line, tail := message[..at], message[at..];
    assert message == line + tail;
    StuffedText(before, line, tail);
    NextLineBreak(message);
    assert Last(line, before) != Some(CR) && (tail == [] ==> Last(line, before) != Some(LF));
    StuffedBreak(Last(line, before), tail, skipped);
    assert tail[skipped..] == AfterLine(message);
  }

  lemma {:induction false} WireOfLines(message: seq<Byte>)
    ensures Wire(Lines(message)) == DotStuffed(message[..LineLength(message)]) +
                                    (CRLF + if AfterLine(message) == [] then [] else Wire(Lines(AfterLine(message))))
  {
    var line, rest := message[..LineLength(message)], AfterLine(message);
    assert Lines(message) == [line] + if rest == [] then [] else Lines(rest);
    assert Lines(message)[1..] == if rest == [] then [] else Lines(rest);
  }

  /** The bytes sent are the lines of the message, dot-stuffed, and the end marker. */
  lemma {:induction false} SendsLines(before: Option<Byte>, message: seq<Byte>)
    requires IsLineStart(before) && (message == [] ==> before == None)
    ensures Stuffed(before, message) == Wire(Lines(message)) + END
    decreases |message|
  {
    hide Stuffed, Lines, Wire, LineLength, BreakLength;
    SendsFirstLine(before, message);
    WireOfLines(message);
    if AfterLine(message) == [] {
      StuffedEnd(Some(LF));
    } else {
      AfterLineIsShorter(message);
      SendsLines(Some(LF), AfterLine(message));
    }
  }

  lemma {:induction false} AfterLineIsShorter(message: seq<Byte>)
    requires AfterLine(message) != []
    ensures |AfterLine(message)| < |message|
  {
  }

  lemma {:induction false} StuffedEnd(before: Option<Byte>)
    ensures Stuffed(before, []) == Ending(before)
  {
  }

  lemma {:induction false} NextLineBreak(message: seq<Byte>)
    ensures LineLength(message[LineLength(message)..]) == 0
    ensures BreakLength(message[LineLength(message)..]) == BreakLength(message)
  {
    var tail := message[LineLength(message)..];
    assert tail != [] ==> tail[0] == message[LineLength(message)];
  }

  // ----- The receiver

  /** The first CRLF. */
  function FindCrlf(data: seq<Byte>): (at: Option<nat>)
    ensures at.Some? ==> at.value + 2 <= |data| && data[at.value..at.value + 2] == CRLF
  {
    if |data| < 2 then None
    else if data[..2] == CRLF then Some(0)
    else
      match FindCrlf(data[1..])
      case None => None
      case Some(at) => assert data[at + 1..at + 3] == data[1..][at..at + 2]; Some(at + 1)
  }

  /** The lines up to the end marker, a leading dot removed from each, and what comes after the marker. */
  datatype Mail = Mail(lines: seq<seq<Byte>>, after: seq<Byte>)

  function Receive(data: seq<Byte>): Option<Mail>
    decreases |data|
  {
    match FindCrlf(data)
    case None => None
    case Some(at) =>
      var line, rest := data[..at], data[at + 2..];
      if line == [DOT] then Some(Mail([], rest))
      else
        match Receive(rest)
        case None => None
        case Some(mail) => Some(Mail([if line != [] && line[0] == DOT then line[1..] else line] + mail.lines,
                                     mail.after))
  }

  lemma {:induction false} FindsAfterText(text: seq<Byte>, rest: seq<Byte>)
    requires IsText(text)
    ensures FindCrlf(text + CRLF + rest) == Some(|text|)
    decreases |text|
  {
    var data := text + CRLF + rest;
    if text == [] {
      assert data[..2] == CRLF;
    } else {
      assert data[1..] == text[1..] + CRLF + rest;
      assert data[..2][0] == text[0];
      FindsAfterText(text[1..], rest);
    }
  }

  predicate AreTexts(lines: seq<seq<Byte>>) {
    forall line :: line in lines ==> IsText(line)
  }

  lemma {:induction false} ReceivesLine(line: seq<Byte>, rest: seq<Byte>)
    requires IsText(line)
    ensures Receive(DotStuffed(line) + CRLF + rest) ==
            match Receive(rest)
            case None => None
            case Some(mail) => Some(Mail([line] + mail.lines, mail.after))
  {
    hide FindCrlf;
    var stuffed := DotStuffed(line);
    var data := stuffed + CRLF + rest;
    FindsAfterText(stuffed, rest);
    assert data[..|stuffed|] == stuffed && data[|stuffed| + 2..] == rest;
  }

  lemma {:induction false} ReceivesWire(lines: seq<seq<Byte>>, tail: seq<Byte>)
    requires AreTexts(lines)
    ensures Receive(Wire(lines) + END + tail) == Some(Mail(lines, tail))
    decreases |lines|
  {
    hide Receive, IsText;
    var data := Wire(lines) + END + tail;
    if lines == [] {
      ReceivesEnd(tail);
      assert data == END + tail;
    } else {
      var rest := Wire(lines[1..]) + END + tail;
      assert data == DotStuffed(lines[0]) + CRLF + rest;
      assert lines[0] in lines && forall line :: line in lines[1..] ==> line in lines;
      ReceivesLine(lines[0], rest);
      ReceivesWire(lines[1..], tail);
      assert lines == [lines[0]] + lines[1..];
    }
  }

  lemma {:induction false} ReceivesEnd(tail: seq<Byte>)
    ensures Receive(END + tail) == Some(Mail([], tail))
  {
    var data := END + tail;
    assert data == [DOT] + CRLF + tail;
    FindsAfterText([DOT], tail);
    assert data[..1] == [DOT] && data[3..] == tail;
  }

  lemma {:induction false} LinesAreTexts(message: seq<Byte>)
    ensures AreTexts(Lines(message))
    decreases |message|
  {
    var at, skipped := LineLength(message), BreakLength(message);
    if message[at + skipped..] != [] {
      LinesAreTexts(message[at + skipped..]);
    }
  }

  /**
    * Transparency: the receiver gets the lines of the message, sees the end
    * marker only where it was put, and is left with exactly what follows it.
    */
  lemma {:induction false} ReceiverGetsMessage(message: seq<Byte>, tail: seq<Byte>)
    ensures Receive(Stuffed(None, message) + tail) == Some(Mail(Lines(message), tail))
  {
    SendsLines(None, message);
    LinesAreTexts(message);
    ReceivesWire(Lines(message), tail);
  }

  /** Lines with CRLF after each. */
  function Terminated(lines: seq<seq<Byte>>): seq<Byte> {
    if lines == [] then [] else lines[0] + CRLF + Terminated(lines[1..])
  }

  /** Every CR is before a LF and every LF after a CR. */
  predicate HasNoLoneBreak(s: seq<Byte>) {
    && (forall k :: 0 <= k < |s| && s[k] == CR ==> k + 1 < |s| && s[k + 1] == LF)
    && (forall k :: 0 <= k < |s| && s[k] == LF ==> k > 0 && s[k - 1] == CR)
  }

  /** A message whose line breaks are all CRLF, the last one included, arrives as it is. */
  lemma {:induction false} ProperMessageArrives(message: seq<Byte>)
    requires message != [] && HasNoLoneBreak(message) && message[|message| - 1] == LF
    ensures Terminated(Lines(message)) == message
    decreases |message|
  {
    var at := LineLength(message);
    FirstBreakIsCrlf(message);
    var rest := message[at + 2..];
    if rest == [] {
      assert Lines(message) == [message[..at]];
    } else {
      SuffixHasNoLoneBreak(message, at + 2);
      ProperMessageArrives(rest);
      assert Lines(message) == [message[..at]] + Lines(rest);
    }
  }

  lemma {:induction false} FirstBreakIsCrlf(message: seq<Byte>)
    requires message != [] && HasNoLoneBreak(message) && message[|message| - 1] == LF
    ensures BreakLength(message) == 2
    ensures message == message[..LineLength(message)] + CRLF + message[LineLength(message) + 2..]
  {
    var at := LineLength(message);
    assert at < |message|;
    assert at > 0 ==> message[at - 1] != CR;
    assert message[at] != LF;
  }

  lemma {:induction false} SuffixHasNoLoneBreak(s: seq<Byte>, at: nat)
    requires HasNoLoneBreak(s) && 0 < at < |s| && s[at - 1] == LF
    ensures HasNoLoneBreak(s[at..])
  {
    assert s[at - 1] != CR;
  }

  /** Nothing that is sent has a lone CR or a lone LF, for a server that would read one as a line break. */
  lemma {:induction false} SendsNoLoneBreak(message: seq<Byte>)
    ensures HasNoLoneBreak(Stuffed(None, message))
  {
    SendsLines(None, message);
    LinesAreTexts(message);
    WireHasNoLoneBreak(Lines(message));
    NoLoneBreakConcat(Wire(Lines(message)), END);
  }

  lemma {:induction false} NoLoneBreakConcat(a: seq<Byte>, b: seq<Byte>)
    requires HasNoLoneBreak(a) && HasNoLoneBreak(b)
    ensures HasNoLoneBreak(a + b)
  {
  }

  lemma {:induction false} WireHasNoLoneBreak(lines: seq<seq<Byte>>)
    requires AreTexts(lines)
    ensures HasNoLoneBreak(Wire(lines))
    decreases |lines|
  {
    if lines != [] {
      assert lines[0] in lines && AreTexts(lines[1..]);
      WireHasNoLoneBreak(lines[1..]);
      assert HasNoLoneBreak(DotStuffed(lines[0]) + CRLF) by {
        assert IsText(DotStuffed(lines[0]));
        assert forall k :: 0 <= k < |DotStuffed(lines[0])| ==> DotStuffed(lines[0])[k] in DotStuffed(lines[0]);
      }
      NoLoneBreakConcat(DotStuffed(lines[0]) + CRLF, Wire(lines[1..]));
    }
  }
}
