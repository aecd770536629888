/** One parameter of a header field, in whichever form it is written, and what a reader makes of it. */
module HeaderParameter {
  import opened Bytes
  import opened Unicode
  import opened Wrappers
  import opened Parameters
  import Decimals

  const SEMICOLON: Byte := 0x3b
  const BACKSLASH: Byte := 0x5c
  const STAR: Byte := 0x2a
  const APOSTROPHE: Byte := 0x27

  // ----- The reader: parameters of RFC 2045, put together by section 3 of RFC 2231

  datatype Item = Item(attribute: seq<Byte>, value: seq<Byte>)

  /** What is read, and what comes behind it. */
  datatype Read<T> = Read(value: T, rest: seq<Byte>)

  /** A quoted string behind its opening quote: a backslash makes the next character an ordinary one. */
  function ReadQuoted(s: seq<Byte>): Option<Read<seq<Byte>>> {
    if s == [] then None
    else if s[0] == QUOTE then Some(Read([], s[1..]))
    else
      var n := if s[0] == BACKSLASH then 2 else 1;
      if |s| < n then None
      else match ReadQuoted(s[n..])
        case None => None
        case Some(Read(value, rest)) => Some(Read([s[n - 1]] + value, rest))
  }

  /** Up to the next `stop`. */
  function ReadUntil(s: seq<Byte>, stop: Byte): Read<seq<Byte>> {
    if s == [] || s[0] == stop then Read([], s)
    else
      var more := ReadUntil(s[1..], stop);
      Read([s[0]] + more.value, more.rest)
  }

  function ReadValue(s: seq<Byte>): Option<Read<seq<Byte>>> {
    if s != [] && s[0] == QUOTE then ReadQuoted(s[1..]) else Some(ReadUntil(s, SEMICOLON))
  }

  /** `; attribute=value` */
  function ReadItem(s: seq<Byte>): Option<Read<Item>> {
    if |s| < 2 || s[0] != SEMICOLON || s[1] != SPACE then None
    else
      var attribute := ReadUntil(s[2..], EQUALS);
      if attribute.rest == [] then None
      else match ReadValue(attribute.rest[1..])
        case None => None
        case Some(Read(value, rest)) => Some(Read(Item(attribute.value, value), rest))
  }

  function ReadItems(s: seq<Byte>): Option<seq<Item>>
    decreases |s|
  {
    if s == [] then Some([])
    else match ReadItem(s)
      case None => None
      case Some(Read(item, rest)) =>
        if |rest| >= |s| then None
        else match ReadItems(rest)
          case None => None
          case Some(items) => Some([item] + items)
  }

  function Number(index: nat): (digits: seq<Byte>) {
    var text := Decimals.DigitsOf(index);
    seq(|text|, k requires 0 <= k < |text| => text[k] as int)
  }

  /** `name*3`, with another star for an encoded section. */
  function Attribute(name: seq<Byte>, index: nat, isEncoded: bool): seq<Byte> {
    name + [STAR] + Number(index) + if isEncoded then [STAR] else []
  }

  /** The sections that continue a parameter, from `index` on. */
  function SectionsOf(items: seq<Item>, name: seq<Byte>, index: nat): Option<seq<Section>>
    decreases |items|
  {
    if items == [] then Some([])
    else if items[0].attribute !in {Attribute(name, index, true), Attribute(name, index, false)} then None
    else match SectionsOf(items[1..], name, index + 1)
      case None => None
      case Some(rest) =>
        Some([Section(items[0].value, items[0].attribute == Attribute(name, index, true))] + rest)
  }

  /** The bytes of the parameter. */
  function ReadParameter(s: seq<Byte>, name: seq<Byte>): Option<seq<Byte>> {
    match ReadItems(s)
    case None => None
    case Some(items) =>
      if |items| == 1 && items[0].attribute == name then Some(items[0].value)
      else match SectionsOf(items, name, 0)
        case None => None
        case Some(sections) => Joined(sections, true)
  }

  // ----- The writer

  predicate IsSpecial(b: Byte) {
    || 0x09 <= b <= 0x0d || b == SPACE || b == QUOTE || b == BACKSLASH || b == SEMICOLON || b == 0x3a || b == 0x2f
    || b == EQUALS || b == 0x28 || b == 0x29 || b == 0x2c || b == 0x3c || b == 0x3e || b == 0x40 || b == 0x5b
    || b == 0x5d || b == 0x3f
  }

  /** `needs_quotes`, of ASCII text. */
  predicate NeedsQuotes(text: seq<Byte>, apostropheAnywhere: bool) {
    || (text != [] && text[0] == HYPHEN)
    || (if apostropheAnywhere then APOSTROPHE in text
        else text != [] && (text[0] == APOSTROPHE || text[|text| - 1] == APOSTROPHE))
    || exists k :: 0 <= k < |text| && IsSpecial(text[k])
  }

  /** How `json_string` writes a character. */
  function JsonCharacter(b: Byte): seq<Byte> {
    if b == QUOTE || b == BACKSLASH then [BACKSLASH, b]
    else if b == 0x08 then [BACKSLASH, 0x62]
    else if b == 0x0c then [BACKSLASH, 0x66]
    else if b == LF then [BACKSLASH, 0x6e]
    else if b == CR then [BACKSLASH, 0x72]
    else if b == TAB then [BACKSLASH, 0x74]
    else if b <= 0x1f then [BACKSLASH, 0x75, 0x30, 0x30, 0x30 + b / 16, LowerHexDigit(b % 16)]
    else [b]
  }

  function LowerHexDigit(v: int): Byte
    requires 0 <= v < 16
  {
    if v < 10 then 0x30 + v else 0x61 + (v - 10)
  }

  function JsonCharacters(text: seq<Byte>): seq<Byte> {
    if text == [] then [] else JsonCharacter(text[0]) + JsonCharacters(text[1..])
  }

  function JsonString(text: seq<Byte>): seq<Byte> {
    [QUOTE] + JsonCharacters(text) + [QUOTE]
  }

  function Value(section: Section): seq<Byte> {
    if !section.isEncoded && NeedsQuotes(section.text, false) then JsonString(section.text) else section.text
  }

  function WrittenItem(attribute: seq<Byte>, value: seq<Byte>): seq<Byte> {
    [SEMICOLON, SPACE] + attribute + [EQUALS] + value
  }

  function WrittenSections(name: seq<Byte>, sections: seq<Section>, index: nat): seq<Byte>
    decreases |sections|
  {
    if sections == [] then []
    else
      WrittenItem(Attribute(name, index, sections[0].isEncoded), Value(sections[0])) +
      WrittenSections(name, sections[1..], index + 1)
  }

  predicate IsName(name: seq<Byte>) {
    forall k :: 0 <= k < |name| ==> IsLetter(name[k])
  }

  /** `push_parameter`: whatever the value, the reader gets it back. */
  method PushParameter(header: seq<Byte>, name: seq<Byte>, chars: seq<Scalar>) returns (longer: seq<Byte>)
    requires IsName(name)
    ensures |longer| >= |header| && longer[..|header|] == header
    ensures ReadParameter(longer[|header|..], name) == Some(Utf8All(chars))
  {
    hide ReadParameter, IsPlain, NeedsQuotes, WrittenSections, Value, Joined, AreGood, Cut, Chopped;
    longer := header;
    var text := Utf8All(chars);
    if IsPlain(chars) {
      PlainIsPrintable(chars);
    }
    if !IsPlain(chars) || |text| >= 75 {
      var sections := Sections(chars);
      SectionsAreWritable(chars);
      SectionsAreRead(name, chars, sections);
      for index := 0 to |sections|
        invariant longer + WrittenSections(name, sections[index..], index) ==
          header + WrittenSections(name, sections, 0)
      {
        WrittenStep(name, sections, index);
        longer := longer + WrittenItem(Attribute(name, index, sections[index].isEncoded), Value(sections[index]));
      }
      WrittenEnds(name, sections);
      assert longer == header + WrittenSections(name, sections, 0);
    } else if text == [] || NeedsQuotes(text, true) {
      OneIsRead(name, text, JsonString(text));
      longer := longer + WrittenItem(name, JsonString(text));
    } else {
      OneIsRead(name, text, text);
      longer := longer + WrittenItem(name, text);
    }
  }

  lemma {:induction false} WrittenStep(name: seq<Byte>, sections: seq<Section>, index: nat)
    requires index < |sections|
    ensures WrittenSections(name, sections[index..], index) ==
            WrittenItem(Attribute(name, index, sections[index].isEncoded), Value(sections[index])) +
            WrittenSections(name, sections[index + 1..], index + 1)
  {
    assert sections[index..][1..] == sections[index + 1..];
  }

  lemma {:induction false} WrittenEnds(name: seq<Byte>, sections: seq<Section>)
    ensures WrittenSections(name, sections[|sections|..], |sections|) == [] && sections[0..] == sections
  {
  }

  // ----- Reading values

  predicate IsPrintable(text: seq<Byte>) {
    forall k :: 0 <= k < |text| ==> 0x20 <= text[k] <= 0x7e
  }

  predicate IsToken(text: seq<Byte>) {
    (forall k :: 0 <= k < |text| ==> text[k] != SEMICOLON) && (text != [] ==> text[0] != QUOTE)
  }

  /** Where a value may end. */
  predicate IsBehindValue(rest: seq<Byte>) {
    rest == [] || rest[0] == SEMICOLON
  }

  lemma {:induction false} QuotedIsRead(text: seq<Byte>, rest: seq<Byte>)
    requires IsPrintable(text)
    ensures ReadQuoted(JsonCharacters(text) + [QUOTE] + rest) == Some(Read(text, rest))
    decreases |text|
  {
    var s := JsonCharacters(text) + [QUOTE] + rest;
    if text == [] {
      assert s == [QUOTE] + rest && s[1..] == rest;
    } else {
      var first := JsonCharacter(text[0]);
      assert s == first + (JsonCharacters(text[1..]) + [QUOTE] + rest);
      assert s[|first|..] == JsonCharacters(text[1..]) + [QUOTE] + rest;
      QuotedIsRead(text[1..], rest);
      assert s[0] == first[0] && s[|first| - 1] == text[0];
      assert [text[0]] + text[1..] == text;
    }
  }

  lemma {:induction false} UntilIsRead(text: seq<Byte>, rest: seq<Byte>, stop: Byte)
    requires forall k :: 0 <= k < |text| ==> text[k] != stop
    requires rest == [] || rest[0] == stop
    ensures ReadUntil(text + rest, stop) == Read(text, rest)
    decreases |text|
  {
    if text == [] {
      assert text + rest == rest;
    } else {
      assert (text + rest)[1..] == text[1..] + rest;
      UntilIsRead(text[1..], rest, stop);
      assert [text[0]] + text[1..] == text;
    }
  }

  lemma {:induction false} JsonIsRead(text: seq<Byte>, rest: seq<Byte>)
    requires IsPrintable(text)
    ensures ReadValue(JsonString(text) + rest) == Some(Read(text, rest))
  {
    var s := JsonString(text) + rest;
    assert s[1..] == JsonCharacters(text) + [QUOTE] + rest;
    QuotedIsRead(text, rest);
  }

  lemma {:induction false} TokenIsRead(text: seq<Byte>, rest: seq<Byte>)
    requires IsToken(text) && IsBehindValue(rest)
    ensures ReadValue(text + rest) == Some(Read(text, rest))
  {
    UntilIsRead(text, rest, SEMICOLON);
    assert text + rest != [] ==> (text + rest)[0] == (if text == [] then rest[0] else text[0]);
  }

  /** A value that is written in one of the two ways. */
  predicate Stands(written: seq<Byte>, text: seq<Byte>) {
    (written == JsonString(text) && IsPrintable(text)) || (written == text && IsToken(text))
  }

  lemma {:induction false} ItemIsRead(attribute: seq<Byte>, written: seq<Byte>, text: seq<Byte>, rest: seq<Byte>)
    requires forall k :: 0 <= k < |attribute| ==> attribute[k] != EQUALS
    requires Stands(written, text) && IsBehindValue(rest)
    ensures ReadItem(WrittenItem(attribute, written) + rest) == Some(Read(Item(attribute, text), rest))
  {
    hide ReadValue, JsonString, IsToken, IsPrintable, IsBehindValue;
    if written == JsonString(text) && IsPrintable(text) {
      JsonIsRead(text, rest);
    } else {
      TokenIsRead(text, rest);
    }
    var s, behind := WrittenItem(attribute, written) + rest, [EQUALS] + (written + rest);
    assert s[2..] == attribute + behind;
    UntilIsRead(attribute, behind, EQUALS);
    assert behind[1..] == written + rest;
  }

  lemma {:induction false} OneIsRead(name: seq<Byte>, text: seq<Byte>, written: seq<Byte>)
    requires IsName(name) && IsPrintable(text)
    requires written == JsonString(text) || (written == text && !NeedsQuotes(text, true))
    ensures ReadParameter(WrittenItem(name, written), name) == Some(text)
  {
    hide ReadItem, JsonString;
    if written == text && written != JsonString(text) {
      QuotedWhenNeeded(text, true);
    }
    ItemIsRead(name, written, text, []);
    var s := WrittenItem(name, written);
    assert s + [] == s && s != [];
    assert ReadItems(s) == Some([Item(name, text)] + []);
  }

  lemma {:induction false} QuotedWhenNeeded(text: seq<Byte>, apostropheAnywhere: bool)
    requires !NeedsQuotes(text, apostropheAnywhere)
    ensures IsToken(text)
  {
    assert forall k :: 0 <= k < |text| ==> !IsSpecial(text[k]);
  }

  // ----- Reading sections

  predicate IsWritable(section: Section) {
    if section.isEncoded then IsToken(section.text) else IsPrintable(section.text)
  }

  predicate AreWritable(sections: seq<Section>) {
    forall k :: 0 <= k < |sections| ==> IsWritable(sections[k])
  }

  lemma {:induction false} ValueStands(section: Section)
    requires IsWritable(section)
    ensures Stands(Value(section), section.text)
  {
    hide JsonString, NeedsQuotes, IsToken;
    if !section.isEncoded && !NeedsQuotes(section.text, false) {
      QuotedWhenNeeded(section.text, false);
    }
  }

  lemma {:induction false} NumberIsDigits(index: nat)
    ensures forall k :: 0 <= k < |Number(index)| ==> IsDigit(Number(index)[k])
  {
  }

  lemma {:induction false} AttributeHasNoEquals(name: seq<Byte>, index: nat, isEncoded: bool)
    requires IsName(name)
    ensures forall k :: 0 <= k < |Attribute(name, index, isEncoded)| ==> Attribute(name, index, isEncoded)[k] != EQUALS
    ensures Attribute(name, index, isEncoded) != name
    ensures Attribute(name, index, true) != Attribute(name, index, false)
  {
    hide Number;
    NumberIsDigits(index);
    assert |Attribute(name, index, isEncoded)| > |name|;
    assert |Attribute(name, index, true)| > |Attribute(name, index, false)|;
  }

  lemma {:induction false} WrittenStarts(name: seq<Byte>, sections: seq<Section>, index: nat)
    ensures IsBehindValue(WrittenSections(name, sections, index))
  {
  }

  /** The items that are read are the sections. */
  lemma {:induction false} ItemsAreRead(name: seq<Byte>, sections: seq<Section>, index: nat) returns (items: seq<Item>)
    requires IsName(name) && AreWritable(sections)
    ensures ReadItems(WrittenSections(name, sections, index)) == Some(items) && |items| == |sections|
    ensures SectionsOf(items, name, index) == Some(sections)
    ensures items != [] ==> items[0].attribute != name
    decreases |sections|
  {
    items := [];
    if sections != [] {
      hide ReadItem, Attribute, Value, Stands, IsBehindValue, IsWritable;
      var attribute := Attribute(name, index, sections[0].isEncoded);
      var rest := WrittenSections(name, sections[1..], index + 1);
      AttributeHasNoEquals(name, index, sections[0].isEncoded);
      ValueStands(sections[0]);
      WrittenStarts(name, sections[1..], index + 1);
      ItemIsRead(attribute, Value(sections[0]), sections[0].text, rest);
      var more := ItemsAreRead(name, sections[1..], index + 1);
      items := [Item(attribute, sections[0].text)] + more;
      assert items[1..] == more;
      assert [sections[0]] + sections[1..] == sections;
    }
  }

  lemma {:induction false} SectionsAreRead(name: seq<Byte>, chars: seq<Scalar>, sections: seq<Section>)
    requires IsName(name) && AreWritable(sections) && Joined(sections, true) == Some(Utf8All(chars))
    ensures ReadParameter(WrittenSections(name, sections, 0), name) == Some(Utf8All(chars))
  {
    hide Joined, WrittenSections, ReadItems, SectionsOf, IsWritable;
    var items := ItemsAreRead(name, sections, 0);
  }

  // ----- What the sections are made of

  lemma {:induction false} PlainIsPrintable(chars: seq<Scalar>)
    requires IsPlain(chars)
    ensures IsPrintable(Utf8All(chars)) && |Utf8All(chars)| == |chars|
  {
    if chars != [] {
      PlainIsPrintable(chars[1..]);
      assert Utf8All(chars) == [chars[0]] + Utf8All(chars[1..]);
    }
  }

  lemma {:induction false} ChoppedIsWritable(value: seq<Byte>)
    requires IsPrintable(value)
    ensures AreWritable(Chopped(value))
    decreases |value|
  {
    if |value| >= MAX_LENGTH {
      ChoppedIsWritable(value[MAX_LENGTH..]);
      assert forall k :: 1 <= k < |Chopped(value)| ==> Chopped(value)[k] == Chopped(value[MAX_LENGTH..])[k - 1];
    }
  }

  predicate IsTokenCharacter(b: Byte) {
    b != SEMICOLON && b != QUOTE
  }

  lemma {:induction false} PercentIsToken(s: seq<Scalar>)
    ensures forall k :: 0 <= k < |PercentAll(s)| ==> IsTokenCharacter(PercentAll(s)[k])
    decreases |s|
  {
    if s != [] {
      PercentIsToken(s[..|s| - 1]);
      CharacterIsToken(s[|s| - 1]);
    }
  }

  lemma {:induction false} CharacterIsToken(c: Scalar)
    ensures forall k :: 0 <= k < |PercentEncode(c)| ==> IsTokenCharacter(PercentEncode(c)[k])
  {
    if !IsAttribute(c) {
      BytesAreToken(Utf8(c));
    }
  }

  lemma {:induction false} BytesAreToken(u: seq<Byte>)
    ensures forall k :: 0 <= k < |PercentBytes(u)| ==> IsTokenCharacter(PercentBytes(u)[k])
    decreases |u|
  {
    if u != [] {
      BytesAreToken(u[1..]);
    }
  }

  lemma {:induction false} LiteralIsPrintable(s: seq<Scalar>)
    requires AreLiteral(s)
    ensures IsPrintable(Utf8All(s))
    decreases |s|
  {
    if s != [] {
      assert IsLiteral(s[0]) && forall k :: 0 <= k < |s| - 1 ==> s[1..][k] == s[k + 1];
      LiteralIsPrintable(s[1..]);
      assert Utf8All(s) == [s[0]] + Utf8All(s[1..]);
    }
  }

  lemma {:induction false} SectionIsWritable(s: seq<Scalar>, isFirst: bool)
    ensures IsWritable(SectionOf(s, isFirst))
  {
    hide AreLiteral, PercentAll, Utf8All;
    PercentIsToken(s);
    if AreLiteral(s) {
      LiteralIsPrintable(s);
    }
  }

  lemma {:induction false} CutIsWritable(chars: seq<Scalar>, isFirst: bool)
    ensures AreWritable(Cut(chars, isFirst))
    decreases |chars|, isFirst
  {
    if chars != [] || isFirst {
      hide SectionOf, IsWritable, Extent, Fits;
      CutStarts(chars, isFirst);
      var n := Extent(chars, 0, isFirst);
      SectionIsWritable(chars[..n], isFirst);
      CutIsWritable(chars[n..], false);
      assert forall k :: 1 <= k < |Cut(chars, isFirst)| ==> Cut(chars, isFirst)[k] == Cut(chars[n..], false)[k - 1];
    }
  }

  lemma {:induction false} SectionsAreWritable(chars: seq<Scalar>)
    ensures AreWritable(if IsPlain(chars) then Chopped(Utf8All(chars)) else Cut(chars, true))
  {
    if IsPlain(chars) {
      PlainIsPrintable(chars);
      ChoppedIsWritable(Utf8All(chars));
    } else {
      CutIsWritable(chars, true);
    }
  }
}
