/** Decimal numbers as strings of digits: rounded, shifted by an exponent, and grouped by thousands. */
module Decimals {
  import Arithmetic

  type Digit = c: char | '0' <= c <= '9' witness '0'

  /** The digits before and after the point. */
  datatype Decimal = Decimal(whole: seq<Digit>, fraction: seq<Digit>)

  function Pow10(n: nat): (p: nat)
    ensures p > 0
  {
    if n == 0 then 1 else 10 * Pow10(n - 1)
  }

  function DigitValue(c: Digit): (v: nat)
    ensures v < 10
  {
    c as int - '0' as int
  }

  function Value(s: seq<Digit>): nat {
    if s == [] then 0 else Value(s[..|s| - 1]) * 10 + DigitValue(s[|s| - 1])
  }

  function Zeros(n: nat): (s: seq<Digit>)
    ensures |s| == n
  {
    seq(n, _ => '0')
  }

  /** A count of units of ten to the power `-places`, in units of ten to the power `-decimals`: half of one goes up. */
  function HalfUp(value: nat, places: int, decimals: nat): int {
    if places <= decimals then value * Pow10(decimals - places)
    else
      var unit: nat := Pow10(places - decimals);
      (2 * value + unit) / (2 * unit)
  }

  // ----- Values

  lemma {:induction false} ShiftedSum(a: int, p: int, b: int, d: int)
    ensures (a * p + b) * 10 + d == a * (10 * p) + (b * 10 + d)
  {
    assert a * (10 * p) == 10 * (a * p);
  }

  lemma {:induction false} ValueConcat(a: seq<Digit>, b: seq<Digit>)
    ensures Value(a + b) == Value(a) * Pow10(|b|) + Value(b)
    decreases |b|
  {
    if b == [] {
      assert a + b == a;
    } else {
      var front, last := b[..|b| - 1], DigitValue(b[|b| - 1]);
      assert (a + b)[..|a + b| - 1] == a + front;
      ValueConcat(a, front);
      ShiftedSum(Value(a), Pow10(|front|), Value(front), last);
      assert Value(a + b) == Value(a + front) * 10 + last;
      assert Value(b) == Value(front) * 10 + last;
    }
  }

  lemma {:induction false} ValueBelow(s: seq<Digit>)
    ensures Value(s) < Pow10(|s|)
  {
    if s != [] {
      ValueBelow(s[..|s| - 1]);
    }
  }

  lemma {:induction false} ZerosAreNothing(n: nat)
    ensures Value(Zeros(n)) == 0
  {
    if n > 0 {
      assert Zeros(n)[..n - 1] == Zeros(n - 1);
      ZerosAreNothing(n - 1);
    }
  }

  /** The digits of a number. */
  function DigitsOf(n: nat): (digits: seq<Digit>)
    ensures digits != [] && (n < 10 ==> |digits| == 1) && (10 <= n < 100 ==> |digits| == 2)
  {
    if n < 10 then [(n + '0' as int) as char] else DigitsOf(n / 10) + [(n % 10 + '0' as int) as char]
  }

  /** With zeros in front, to have at least so many. */
  function Padded(n: nat, width: nat): (digits: seq<Digit>)
    ensures |digits| >= width && digits != [] && (width == 2 && n < 100 ==> |digits| == 2)
  {
    var digits := DigitsOf(n);
    if |digits| >= width then digits else Zeros(width - |digits|) + digits
  }

  lemma {:induction false} DigitsCount(n: nat)
    ensures Value(DigitsOf(n)) == n
  {
    var digits := DigitsOf(n);
    if n < 10 {
      assert digits[..0] == [];
    } else {
      DigitsCount(n / 10);
      assert digits[..|digits| - 1] == DigitsOf(n / 10);
    }
  }

  lemma {:induction false} PaddedCounts(n: nat, width: nat)
    ensures Value(Padded(n, width)) == n && Read(Padded(n, width)) == n
  {
    hide Value, Read, DigitsOf, Zeros, Pow10;
    var digits := DigitsOf(n);
    DigitsCount(n);
    if |digits| < width {
      ValueConcat(Zeros(width - |digits|), digits);
      ZerosAreNothing(width - |digits|);
    }
    ReadsDigitsAlone(Padded(n, width));
  }

  lemma {:induction false} ReadsBehind(c: char, digits: seq<Digit>)
    requires !('0' <= c <= '9')
    ensures Read([c] + digits) == Value(digits)
  {
    ReadsDigits([c], digits);
    assert [c][..0] == [] && Read([]) == 0;
    assert Read([c]) == 0;
    assert 0 * Pow10(|digits|) == 0;
  }

  lemma {:induction false} ReadsDigitsAlone(digits: seq<Digit>)
    ensures Read(digits) == Value(digits)
  {
    ReadsDigits([], digits);
    assert [] + digits == digits && Read([]) == 0;
  }

  // ----- Rounding

  /** The first digits, with zeros for those that are missing. */
  function Kept(fraction: seq<Digit>, decimals: nat): (kept: seq<Digit>)
    ensures |kept| == decimals
  {
    if |fraction| >= decimals then fraction[..decimals] else fraction + Zeros(decimals - |fraction|)
  }

  predicate GoesUp(fraction: seq<Digit>, decimals: nat) {
    decimals < |fraction| && fraction[decimals] >= '5'
  }

  function AddOne(c: Digit): Digit
    requires c != '9'
  {
    (c as int + 1) as char
  }

  /** One more in the last place: the carry runs from the right, and grows the number when it gets through. */
  method AddUnit(digits: seq<Digit>) returns (more: seq<Digit>)
    ensures Value(more) == Value(digits) + 1
    ensures |more| == |digits| || (|more| == |digits| + 1 && more[0] == '1')
  {
    hide Value;
    more := digits;
    var carry := true;
    var at: nat := |more|;
    while at > 0 && carry
      invariant at <= |more| == |digits|
      invariant Value(more) + (if carry then Pow10(|digits| - at) else 0) == Value(digits) + 1
      invariant carry ==> more[at..] == Zeros(|digits| - at)
    {
      at := at - 1;
      if more[at] == '9' {
        NineCarries(more, at);
        more := more[at := '0'];
      } else {
        DigitGrows(more, at);
        more := more[at := AddOne(more[at])];
        carry := false;
      }
    }
    if carry {
      var one: Digit := '1';
      OneInFront(one, more);
      more := [one] + more;
    }
  }

  lemma {:induction false} OneInFront(one: Digit, digits: seq<Digit>)
    requires one == '1'
    ensures Value([one] + digits) == Pow10(|digits|) + Value(digits)
  {
    ValueConcat([one], digits);
    assert [one][..0] == [];
  }

  /** `rounded`: the digits kept, behind those of the whole, and one more for a five behind them. */
  method Rounded(number: Decimal, decimals: nat) returns (r: Decimal)
    ensures |r.fraction| == decimals
    ensures Value(r.whole + r.fraction) == HalfUp(Value(number.whole + number.fraction), |number.fraction|, decimals)
    ensures |r.whole| == |number.whole| || (|r.whole| == |number.whole| + 1 && (r.whole + r.fraction)[0] == '1')
  {
    hide Value, HalfUp;
    RoundsHalfUp(number, decimals);
    var digits := number.whole + Kept(number.fraction, decimals);
    if decimals < |number.fraction| && number.fraction[decimals] >= '5' {
      digits := AddUnit(digits);
    }
    r := Decimal(digits[..|digits| - decimals], digits[|digits| - decimals..]);
    assert r.whole + r.fraction == digits;
  }

  lemma {:induction false} DigitChanges(digits: seq<Digit>, at: nat, c: Digit)
    requires at < |digits|
    ensures Value(digits[at := c]) ==
      Value(digits) + (DigitValue(c) - DigitValue(digits[at])) * Pow10(|digits| - at - 1)
  {
    var front, back := digits[..at], digits[at + 1..];
    assert digits == front + [digits[at]] + back;
    assert digits[at := c] == front + [c] + back;
    ValueConcat(front + [digits[at]], back);
    ValueConcat(front + [c], back);
    assert (front + [c])[..at] == front && (front + [digits[at]])[..at] == front;
    var p := Pow10(|back|);
    Arithmetic.Distribute(Value(front) * 10 + DigitValue(digits[at]), DigitValue(c) - DigitValue(digits[at]), p);
  }

  lemma {:induction false} NineCarries(digits: seq<Digit>, at: nat)
    requires at < |digits| && digits[at] == '9' && digits[at + 1..] == Zeros(|digits| - at - 1)
    ensures Value(digits[at := '0']) + Pow10(|digits| - at) == Value(digits) + Pow10(|digits| - at - 1)
    ensures digits[at := '0'][at..] == Zeros(|digits| - at)
  {
    DigitChanges(digits, at, '0');
    var tail := digits[at := '0'][at..];
    assert tail[0] == '0' && tail[1..] == digits[at + 1..];
    assert forall k :: 1 <= k < |tail| ==> tail[k] == tail[1..][k - 1];
  }

  lemma {:induction false} DigitGrows(digits: seq<Digit>, at: nat)
    requires at < |digits| && digits[at] != '9'
    ensures Value(digits[at := AddOne(digits[at])]) == Value(digits) + Pow10(|digits| - at - 1)
  {
    DigitChanges(digits, at, AddOne(digits[at]));
  }

  /** Keeping the first digits and adding one for a five behind them rounds half up. */
  lemma {:induction false} RoundsHalfUp(number: Decimal, decimals: nat)
    ensures HalfUp(Value(number.whole + number.fraction), |number.fraction|, decimals) ==
            Value(number.whole + Kept(number.fraction, decimals)) + (if GoesUp(number.fraction, decimals) then 1 else 0)
  {
    var whole, fraction := number.whole, number.fraction;
    if |fraction| <= decimals {
      var zeros := Zeros(decimals - |fraction|);
      assert whole + Kept(fraction, decimals) == whole + fraction + zeros;
      ValueConcat(whole + fraction, zeros);
      ZerosAreNothing(|zeros|);
    } else {
      var kept, dropped := fraction[..decimals], fraction[decimals..];
      assert whole + fraction == whole + kept + dropped;
      ValueConcat(whole + kept, dropped);
      Nearest(Value(whole + kept), dropped);
    }
  }

  lemma {:induction false} Nearest(kept: nat, dropped: seq<Digit>)
    requires dropped != []
    ensures var unit := Pow10(|dropped|);
            (2 * (kept * unit + Value(dropped)) + unit) / (2 * unit) == kept + (if dropped[0] >= '5' then 1 else 0)
  {
    var unit, tenth := Pow10(|dropped|), Pow10(|dropped| - 1);
    assert dropped == [dropped[0]] + dropped[1..];
    ValueConcat([dropped[0]], dropped[1..]);
    assert Value([dropped[0]]) == DigitValue(dropped[0]) by { assert [dropped[0]][..0] == []; }
    ValueBelow(dropped[1..]);
    var first := DigitValue(dropped[0]);
    assert Value(dropped) == first * tenth + Value(dropped[1..]);
    ValueBelow(dropped);
    assert first >= 5 ==> 5 * tenth <= Value(dropped) by {
      if first >= 5 { Arithmetic.Monotone(5, first, tenth); }
    }
    assert first < 5 ==> Value(dropped) < 5 * tenth by {
      if first < 5 { Arithmetic.Monotone(first, 4, tenth); }
    }
    assert unit == 10 * tenth;
    HalfOf(kept, unit, Value(dropped), first >= 5);
  }

  lemma {:induction false} HalfOf(kept: nat, unit: nat, rest: nat, up: bool)
    requires unit > rest && (up <==> 2 * rest >= unit)
    ensures (2 * (kept * unit + rest) + unit) / (2 * unit) == kept + (if up then 1 else 0)
  {
    var n := if up then kept + 1 else kept;
    assert n * (2 * unit) == 2 * (n * unit);
    Arithmetic.Distribute(kept, 1, unit);
    Arithmetic.DivMod(2 * (kept * unit + rest) + unit, n, 2 * unit, if up then 2 * rest - unit else 2 * rest + unit);
  }

  // ----- The point of a number written with an exponent

  /** `shortest_digits`, from the digits and where the point goes. */
  function PointAt(digits: seq<Digit>, point: int): Decimal {
    if point <= 0 then Decimal(['0'], Zeros(-point) + digits)
    else if point >= |digits| then Decimal(digits + Zeros(point - |digits|), [])
    else Decimal(digits[..point], digits[point..])
  }

  /** The digits count units of ten to the power `point - |digits|`, and so they do where the point went. */
  lemma {:induction false} PointKeepsTheValue(digits: seq<Digit>, point: int)
    ensures var d := PointAt(digits, point);
            var exponent := point - |digits| + |d.fraction|;
            exponent >= 0 && Value(d.whole + d.fraction) == Value(digits) * Pow10(exponent)
    ensures digits != [] ==> PointAt(digits, point).whole != []
  {
    if point <= 0 {
      var zeros := Zeros(-point);
      assert ['0'] + (zeros + digits) == Zeros(1 - point) + digits;
      ValueConcat(Zeros(1 - point), digits);
      ZerosAreNothing(1 - point);
    } else if point >= |digits| {
      var zeros := Zeros(point - |digits|);
      assert digits + zeros + [] == digits + zeros;
      ValueConcat(digits, zeros);
      ZerosAreNothing(|zeros|);
    } else {
      assert digits[..point] + digits[point..] == digits;
    }
  }

  // ----- Grouping

  function WithoutCommas(s: string): string {
    if s == [] then [] else (if s[0] == ',' then [] else [s[0]]) + WithoutCommas(s[1..])
  }

  lemma {:induction false} WithoutCommasConcat(a: string, b: string)
    ensures WithoutCommas(a + b) == WithoutCommas(a) + WithoutCommas(b)
    decreases |a|
  {
    if a == [] {
      assert a + b == b;
    } else {
      assert (a + b)[1..] == a[1..] + b;
      WithoutCommasConcat(a[1..], b);
    }
  }

  lemma {:induction false} OneCharacter(c: char)
    ensures WithoutCommas([c]) == if c == ',' then [] else [c]
  {
    assert [c][1..] == [];
  }

  /** A comma in every fourth place from the right, and nowhere else. */
  predicate HasThousands(s: string, right: nat) {
    forall k :: 0 <= k < |s| ==> (s[k] == ',' <==> (|s| - 1 - k + right) % 4 == 3)
  }

  /** `grouped`. */
  method Grouped(whole: seq<Digit>) returns (grouped: string)
    ensures WithoutCommas(grouped) == whole
    ensures HasThousands(grouped, 0)
    ensures grouped != [] ==> grouped[0] != ','
  {
    grouped := [];
    for index := 0 to |whole|
      invariant WithoutCommas(grouped) == whole[..index]
      invariant index == 0 ==> grouped == []
      invariant index > 0 ==> grouped != [] && grouped[0] != ','
      invariant HasThousands(grouped, Right(|whole| - index))
    {
      hide WithoutCommas, HasThousands;
      var longer := grouped;
      if index > 0 && (|whole| - index) % 3 == 0 {
        longer := longer + [','];
        WithoutCommasConcat(grouped, [',']);
        OneCharacter(',');
      }
      WithoutCommasConcat(longer, [whole[index]]);
      OneCharacter(whole[index]);
      assert whole[..index + 1] == whole[..index] + [whole[index]];
      ThousandsGrow(grouped, |whole| - index, whole[index]);
      grouped := longer + [whole[index]];
    }
    assert whole[..|whole|] == whole;
  }

  /** The places that so many digits take with the commas before them. */
  function Right(digits: nat): nat {
    digits + digits / 3
  }

  lemma {:induction false} ThousandsGrow(grouped: string, left: nat, digit: Digit)
    requires left > 0 && HasThousands(grouped, Right(left))
    ensures HasThousands((if grouped != [] && left % 3 == 0 then grouped + [','] else grouped) + [digit],
                         Right(left - 1))
  {
  }

  // ----- An amount as it is written

  /** The number in a text, its commas and its point passed over. */
  function Read(s: string): nat {
    if s == [] then 0
    else if '0' <= s[|s| - 1] <= '9' then Read(s[..|s| - 1]) * 10 + DigitValue(s[|s| - 1])
    else Read(s[..|s| - 1])
  }

  lemma {:induction false} ReadsDigits(s: string, digits: seq<Digit>)
    ensures Read(s + digits) == Read(s) * Pow10(|digits|) + Value(digits)
    decreases |digits|
  {
    if digits == [] {
      assert s + digits == s;
    } else {
      var front, last := digits[..|digits| - 1], DigitValue(digits[|digits| - 1]);
      assert (s + digits)[..|s + digits| - 1] == s + front;
      ReadsDigits(s, front);
      ShiftedSum(Read(s), Pow10(|front|), Value(front), last);
      assert Read(s + digits) == Read(s + front) * 10 + last;
      assert Value(digits) == Value(front) * 10 + last;
    }
  }

  lemma {:induction false} ReadsWithoutCommas(s: string)
    requires forall k :: 0 <= k < |s| ==> s[k] == ',' || '0' <= s[k] <= '9'
    ensures (forall k :: 0 <= k < |WithoutCommas(s)| ==> '0' <= WithoutCommas(s)[k] <= '9') &&
      Read(s) == Read(WithoutCommas(s))
    decreases |s|
  {
    if s != [] {
      var front, last := s[..|s| - 1], s[|s| - 1];
      assert s == front + [last];
      ReadsWithoutCommas(front);
      WithoutCommasConcat(front, [last]);
      OneCharacter(last);
      var rest := WithoutCommas(front);
      assert rest + [] == rest && (rest + [last])[..|rest|] == rest;
    }
  }

  lemma {:induction false} CommasAndDigits(s: string)
    requires forall k :: 0 <= k < |WithoutCommas(s)| ==> '0' <= WithoutCommas(s)[k] <= '9'
    ensures forall k :: 0 <= k < |s| ==> s[k] == ',' || '0' <= s[k] <= '9'
  {
    if s != [] {
      var rest := WithoutCommas(s[1..]);
      assert WithoutCommas(s) == (if s[0] == ',' then [] else [s[0]]) + rest;
      var n := |WithoutCommas(s)| - |rest|;
      assert forall k :: 0 <= k < |rest| ==> rest[k] == WithoutCommas(s)[k + n];
      CommasAndDigits(s[1..]);
      assert s[0] != ',' ==> WithoutCommas(s)[0] == s[0];
      assert forall k :: 1 <= k < |s| ==> s[k] == s[1..][k - 1];
    }
  }

  lemma {:induction false} ReadsGrouped(s: string, whole: seq<Digit>)
    requires WithoutCommas(s) == whole
    ensures Read(s) == Value(whole)
  {
    hide Value, WithoutCommas, Pow10;
    CommasAndDigits(s);
    ReadsWithoutCommas(s);
    ReadsDigits([], whole);
    assert [] + whole == whole && Read([]) == 0;
  }

  lemma {:induction false} SameNumber(digits: seq<Digit>, point: int, decimals: nat)
    ensures var d := PointAt(digits, point);
            HalfUp(Value(d.whole + d.fraction), |d.fraction|, decimals) ==
              HalfUp(Value(digits), |digits| - point, decimals)
  {
    PointKeepsTheValue(digits, point);
    if point > |digits| {
      var zeros := point - |digits|;
      PowAdds(zeros, decimals);
      Regroup(Value(digits), Pow10(zeros), Pow10(decimals));
    }
  }

  lemma {:induction false} Regroup(a: int, b: int, c: int)
    ensures a * b * c == a * (b * c)
  {
  }

  lemma {:induction false} PowAdds(a: nat, b: nat)
    ensures Pow10(a + b) == Pow10(a) * Pow10(b)
  {
    if a > 0 {
      PowAdds(a - 1, b);
      Regroup(10, Pow10(a - 1), Pow10(b));
    }
  }

  /** The digits `format` writes for an amount, whose point comes so far behind the start of its shortest digits. */
  method Amount(digits: seq<Digit>, point: int, decimals: nat) returns (text: string)
    ensures Read(text) == HalfUp(Value(digits), |digits| - point, decimals)
    ensures decimals == 0 ==> HasThousands(text, 0)
    ensures decimals > 0 ==>
              && |text| > decimals && text[|text| - decimals - 1] == '.'
              && HasThousands(text[..|text| - decimals - 1], 0)
              && forall k :: |text| - decimals <= k < |text| ==> '0' <= text[k] <= '9'
  {
    hide Value, HalfUp, HasThousands, Read, PointAt;
    var r := Rounded(PointAt(digits, point), decimals);
    SameNumber(digits, point, decimals);
    var whole := Grouped(r.whole);
    ReadsGrouped(whole, r.whole);
    ValueConcat(r.whole, r.fraction);
    if r.fraction == [] {
      assert r.whole + r.fraction == r.whole;
      text := whole;
    } else {
      text := whole + ['.'] + r.fraction;
      PointIsPassedOver(whole);
      ReadsDigits(whole + ['.'], r.fraction);
      assert text[..|whole|] == whole;
      assert forall k :: |whole| < k < |text| ==> text[k] == r.fraction[k - |whole| - 1];
    }
  }

  lemma {:induction false} PointIsPassedOver(s: string)
    ensures Read(s + ['.']) == Read(s)
  {
    assert (s + ['.'])[..|s|] == s;
  }
}
