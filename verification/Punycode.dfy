/**
  * The Punycode codec of RFC 3492. The decoder is given twice: with the
  * overflow guards of the program, and without them over unbounded integers.
  */
module Punycode {
  import opened Arithmetic
  import opened Bytes
  import opened Unicode
  import opened Wrappers

  const BASE := 36
  const T_MIN := 1
  const T_MAX := 26
  const SKEW := 38
  const DAMP := 700
  const INITIAL_BIAS := 72
  const INITIAL_N := 128
  const MAX_INT := 0x7fff_ffff

  /** No bias is larger while numbers stay below MAX_INT. */
  const MAX_BIAS: nat := 250

  function Threshold(k: nat, bias: nat): (t: nat)
    ensures T_MIN <= t <= T_MAX
  {
    if k <= bias then T_MIN else if k >= bias + T_MAX then T_MAX else k - bias
  }

  // ----- Bias adaptation (section 6.1)

  function Scaled(delta: nat, k: nat): nat
    decreases delta
  {
    if delta > ((BASE - T_MIN) * T_MAX) / 2 then
      Scaled(Over(delta, BASE - T_MIN), k + BASE)
    else
      k + Over(Times(BASE - T_MIN + 1, delta), delta + SKEW)
  }

  function AdaptedBias(delta: nat, points: nat, isFirst: bool): nat
    requires points > 0
  {
    var damped := if isFirst then Over(delta, DAMP) else Over(delta, 2);
    Scaled(damped + Over(damped, points), 0)
  }

  /** 455 times 35 to a power, and a little more. */
  function Limit(steps: nat): (limit: nat) {
    if steps == 0 then 456 else 35 * Limit(steps - 1)
  }

  lemma {:induction false} ScaledBound(delta: nat, k: nat, steps: nat)
    requires delta < Limit(steps)
    ensures Scaled(delta, k) <= k + 36 * steps + 36
    decreases steps
  {
    if delta > 455 {
      OverShrinks(delta, 35, Limit(steps - 1));
      ScaledBound(Over(delta, 35), k + 36, steps - 1);
    } else {
      TimesGrows(36, 36, delta, delta + 38);
      OverAtMost(Times(36, delta), delta + 38, 36);
    }
  }

  /** The bias stays small, and so does the number of digits with the least threshold. */
  lemma {:induction false} BiasBound(delta: nat, points: nat, isFirst: bool)
    requires points > 0 && delta <= MAX_INT
    ensures AdaptedBias(delta, points, isFirst) <= MAX_BIAS
  {
    var damped := if isFirst then Over(delta, DAMP) else Over(delta, 2);
    OverHalves(delta, DAMP);
    OverHalves(delta, 2);
    assert Limit(5) == 35 * (35 * (35 * (35 * (35 * 456))));
    ScaledBound(damped + Over(damped, points), 0, 5);
  }

  method Adapt(delta: nat, points: nat, isFirst: bool) returns (bias: nat)
    requires points > 0
    ensures bias == AdaptedBias(delta, points, isFirst)
  {
    var rest: nat := if isFirst then Over(delta, DAMP) else Over(delta, 2);
    rest := rest + Over(rest, points);
    var k: nat := 0;
    while rest > ((BASE - T_MIN) * T_MAX) / 2
      invariant Scaled(rest, k) == AdaptedBias(delta, points, isFirst)
    {
      rest := Over(rest, BASE - T_MIN);
      k := k + BASE;
    }
    bias := k + Over(Times(BASE - T_MIN + 1, rest), rest + SKEW);
  }

  // ----- Digits

  function DigitValue(b: Byte): (d: Option<nat>)
    ensures d.Some? ==> d.value < BASE
  {
    if IsDigit(b) then Some(b - 0x30 + 26)
    else if 0x61 <= b <= 0x7a then Some(b - 0x61)
    else None
  }

  function Digit(d: nat): (b: Byte)
    requires d < BASE
    ensures DigitValue(b) == Some(d) && b < 128 && b != HYPHEN
  {
    if d < 26 then 0x61 + d else 0x30 + (d - 26)
  }

  // ----- Decoding (section 6.2)

  datatype Number = Number(value: nat, rest: seq<Byte>)

  /** Read one variable-length integer and add it to `i`. */
  function ReadNumber(input: seq<Byte>, i: nat, w: nat, k: nat, bias: nat, guarded: bool): (r: Option<Number>)
    requires w > 0
    ensures r.Some? ==> |r.value.rest| < |input| && r.value.value >= i
    decreases |input|
  {
    if input == [] then None
    else match DigitValue(input[0])
      case None => None
      case Some(digit) =>
        if guarded && digit > (MAX_INT - i) / w then None
        else
          var t := Threshold(k, bias);
          if digit < t then Some(Number(i + Times(digit, w), input[1..]))
          else if guarded && w > MAX_INT / (BASE - t) then None
          else ReadNumber(input[1..], i + Times(digit, w), Times(w, BASE - t), k + BASE, bias, guarded)
  }

  /** What the decoder carries from one number to the next. */
  datatype Decoder = Decoder(output: seq<nat>, n: nat, i: nat, bias: nat)

  function Insert(d: Decoder, i: nat, guarded: bool): Option<Decoder>
    requires i >= d.i
  {
    var length := |d.output| + 1;
    if guarded && i / length > MAX_INT - d.n then None
    else
      var at := i % length;
      var n := d.n + Over(i, length);
      Some(Inserted(d, n, at, AdaptedBias(i - d.i, length, d.i == 0)))
  }

  function Inserted(d: Decoder, n: nat, at: nat, bias: nat): Decoder
    requires at <= |d.output|
  {
    Decoder(d.output[..at] + [n] + d.output[at..], n, at + 1, bias)
  }

  function Run(digits: seq<Byte>, d: Decoder, guarded: bool): Option<Decoder>
    decreases |digits|
  {
    if digits == [] then Some(d)
    else match ReadNumber(digits, d.i, 1, BASE, d.bias, guarded)
      case None => None
      case Some(Number(i, rest)) =>
        match Insert(d, i, guarded)
        case None => None
        case Some(next) => Run(rest, next, guarded)
  }

  function Start(copied: seq<Byte>): Decoder {
    Decoder(copied, INITIAL_N, 0, INITIAL_BIAS)
  }

  /** The position after the last hyphen, or zero when there is none. */
  function AfterLastHyphen(input: seq<Byte>): (at: nat)
    ensures at <= |input|
    ensures at > 0 ==> input[at - 1] == HYPHEN
    ensures forall j :: at <= j < |input| ==> input[j] != HYPHEN
  {
    if input == [] then 0
    else if input[|input| - 1] == HYPHEN then |input|
    else AfterLastHyphen(input[..|input| - 1])
  }

  predicate IsAscii(input: seq<Byte>) {
    forall b :: b in input ==> b < 128
  }

  /**
    * The code points of an encoded label. `guarded` decides whether the
    * program's limit on its numbers applies.
    */
  function Points(input: seq<Byte>, skipsLeadingHyphen: bool, guarded: bool): Option<seq<nat>>
  {
    var at := AfterLastHyphen(input);
    if !IsAscii(input) || (at == 1 && !skipsLeadingHyphen) then None
    else
      var copied := if at == 0 then [] else input[..at - 1];
      match Run(input[at..], Start(copied), guarded)
      case None => None
      case Some(d) => Some(d.output)
  }

  /** The inner loop of `punycode_points`. */
  method ReadDigits(input: seq<Byte>, oldI: nat, bias: nat) returns (r: Option<Number>)
    ensures r == ReadNumber(input, oldI, 1, BASE, bias, true)
  {
    var digits, i: nat, w: nat, k: nat := input, oldI, 1, BASE;
    while digits != []
      invariant w > 0
      invariant ReadNumber(input, oldI, 1, BASE, bias, true) == ReadNumber(digits, i, w, k, bias, true)
      decreases |digits|
    {
      var value := DigitValue(digits[0]);
      if value == None {
        return None;
      }
      var digit := value.value;
      digits := digits[1..];
      if digit > (MAX_INT - i) / w {
        return None;
      }
      i := i + Times(digit, w);
      var t := Threshold(k, bias);
      if digit < t {
        return Some(Number(i, digits));
      }
      if w > MAX_INT / (BASE - t) {
        return None;
      }
      w := Times(w, BASE - t);
      k := k + BASE;
    }
    return None;
  }

  /** What `punycode_points` does with a number it has read. */
  method InsertPoint(d: Decoder, number: nat) returns (r: Option<Decoder>)
    requires number >= d.i
    ensures r == Insert(d, number, true)
  {
    var i, n := number, d.n;
    var length := |d.output| + 1;
    var bias := Adapt(i - d.i, length, d.i == 0);
    if i / length > MAX_INT - n {
      return None;
    }
    n := n + Over(i, length);
    i := i % length;
    return Some(Decoder(d.output[..i] + [n] + d.output[i..], n, i + 1, bias));
  }

  /** `punycode_points`. */
  method DecodePoints(input: seq<Byte>, skipsLeadingHyphen: bool) returns (r: Option<seq<nat>>)
    ensures r == Points(input, skipsLeadingHyphen, true)
  {
    if exists b :: b in input && b >= 128 {
      return None;
    }
    var at := AfterLastHyphen(input);
    if at == 1 && !skipsLeadingHyphen {
      return None;
    }
    var output: seq<nat> := if at == 0 then [] else input[..at - 1];
    var digits := input[at..];
    var i: nat, n: nat, bias: nat := 0, INITIAL_N, INITIAL_BIAS;
    while digits != []
      invariant Run(input[at..], Start(if at == 0 then [] else input[..at - 1]), true) ==
                Run(digits, Decoder(output, n, i, bias), true)
      decreases |digits|
    {
      var number := ReadDigits(digits, i, bias);
      if number == None {
        return None;
      }
      digits := number.value.rest;
      var next := InsertPoint(Decoder(output, n, i, bias), number.value.value);
      if next == None {
        return None;
      }
      output, n, i, bias := next.value.output, next.value.n, next.value.i, next.value.bias;
    }
    return Some(output);
  }

  // ----- The guards only refuse

  lemma {:induction false} ReadNumberWithoutGuards(input: seq<Byte>, i: nat, w: nat, k: nat, bias: nat)
    requires w > 0
    requires ReadNumber(input, i, w, k, bias, true).Some?
    ensures ReadNumber(input, i, w, k, bias, false) == ReadNumber(input, i, w, k, bias, true)
    decreases |input|
  {
    var digit := DigitValue(input[0]).value;
    var t := Threshold(k, bias);
    if digit >= t {
      ReadNumberWithoutGuards(input[1..], i + Times(digit, w), Times(w, BASE - t), k + BASE, bias);
    }
  }

  lemma {:induction false} RunWithoutGuards(digits: seq<Byte>, d: Decoder)
    requires Run(digits, d, true).Some?
    ensures Run(digits, d, false) == Run(digits, d, true)
    decreases |digits|
  {
    if digits != [] {
      ReadNumberWithoutGuards(digits, d.i, 1, BASE, d.bias);
      var number := ReadNumber(digits, d.i, 1, BASE, d.bias, true).value;
      RunWithoutGuards(number.rest, Insert(d, number.value, true).value);
    }
  }

  /**
    * What the program decodes it would decode without its guards. That is what
    * section 6.2 of RFC 3492 decodes, for digits in lower case, unless a hyphen
    * comes first and no other: the section refuses it, and one of the two codecs
    * passes over it.
    */
  lemma {:induction false} DecodesAsTheStandard(input: seq<Byte>, skipsLeadingHyphen: bool)
    requires Points(input, skipsLeadingHyphen, true).Some?
    ensures Points(input, skipsLeadingHyphen, false) == Points(input, skipsLeadingHyphen, true)
  {
    var at := AfterLastHyphen(input);
    RunWithoutGuards(input[at..], Start(if at == 0 then [] else input[..at - 1]));
  }

  // ----- One number, written and read back

  /** The digits of a number, as section 6.3 writes them. */
  function NumberDigits(q: nat, k: nat, bias: nat): (digits: seq<Byte>)
    ensures digits != [] && forall b :: b in digits ==> b < 128 && b != HYPHEN
    decreases q
  {
    var t := Threshold(k, bias);
    if q < t then [Digit(q)]
    else [Digit(LowDigit(q, t))] + NumberDigits(Over(q - t, BASE - t), k + BASE, bias)
  }

  function LowDigit(q: nat, t: nat): (d: nat)
    requires T_MIN <= t <= T_MAX && q >= t
    ensures d < BASE
  {
    t + (q - t) % (BASE - t)
  }

  /**
    * While the threshold is below its maximum it has been at its minimum for
    * all digits before, so the weight is a power of 35.
    */
  ghost predicate IsWeight(w: nat, k: nat, bias: nat) {
    w > 0 &&
    (Threshold(k, bias) < T_MAX ==> IsPower(w, k))
  }

  predicate IsPower(w: nat, k: nat) {
    || (w == 1 && k == 36) || (w == 35 && k == 72) || (w == 1225 && k == 108) || (w == 42875 && k == 144)
    || (w == 1500625 && k == 180) || (w == 52521875 && k == 216) || (w == 1838265625 && k == 252)
  }

  /**
    * A digit is followed by another with a weight the guard lets pass: seven
    * thresholds in a row are not all the least.
    */
  lemma {:induction false} NextWeight(q: nat, w: nat, k: nat, bias: nat)
    requires IsWeight(w, k, bias) && q >= Threshold(k, bias) && Times(q, w) <= MAX_INT && bias <= MAX_BIAS
    ensures IsWeight(Times(w, BASE - Threshold(k, bias)), k + BASE, bias)
    ensures w <= MAX_INT / (BASE - Threshold(k, bias))
  {
    var t := Threshold(k, bias);
    TimesGrows(t, q, w, w);
    if t == T_MAX {
      assert Times(26, w) == 26 * w by { TimesIsProduct(26, w); }
      assert Times(w, 10) == w * 10 by { TimesIsProduct(w, 10); }
    } else {
      assert k == 252 ==> t >= 2;
      assert t >= 2 ==> Times(2, w) <= Times(q, w) by { if t >= 2 { TimesGrows(2, q, w, w); } }
      assert Times(2, w) == 2 * w by { TimesIsProduct(2, w); }
      TimesGrows(w, w, BASE - t, 35);
      assert Times(w, 35) == w * 35 by { TimesIsProduct(w, 35); }
    }
    AtMostQuotient(w, BASE - t, MAX_INT);
  }

  lemma {:induction false} DigitSplit(q: nat, t: nat, w: nat)
    requires T_MIN <= t <= T_MAX && q >= t
    ensures Times(LowDigit(q, t), w) + Times(Over(q - t, BASE - t), Times(w, BASE - t)) == Times(q, w)
  {
    var b, high := BASE - t, Over(q - t, BASE - t);
    DivisionByTimes(q - t, b);
    TimesRegroups(high, b, w);
    TimesAdds(LowDigit(q, t), Times(high, b), w);
  }

  /** What keeps the guards from firing while the digits of `q` are read. */
  ghost predicate IsSafe(q: nat, k: nat, bias: nat, i: nat, w: nat) {
    IsWeight(w, k, bias) && i + Times(q, w) <= MAX_INT && bias <= MAX_BIAS
  }

  lemma {:induction false} GuardsPass(q: nat, k: nat, bias: nat, i: nat, w: nat)
    requires IsSafe(q, k, bias, i, w)
    ensures q < Threshold(k, bias) ==> q <= (MAX_INT - i) / w
    ensures q >= Threshold(k, bias) ==>
              var t := Threshold(k, bias);
              var digit := LowDigit(q, t);
              && digit <= (MAX_INT - i) / w
              && w <= MAX_INT / (BASE - t)
              && IsSafe(Over(q - t, BASE - t), k + BASE, bias, i + Times(digit, w), Times(w, BASE - t))
  {
    var t := Threshold(k, bias);
    if q < t {
      AtMostQuotient(q, w, MAX_INT - i);
    } else {
      DigitSplit(q, t, w);
      NextWeight(q, w, k, bias);
      AtMostQuotient(LowDigit(q, t), w, MAX_INT - i);
    }
  }

  /** One digit of the inner loop, where no guard fires. */
  lemma {:induction false} ReadStep(input: seq<Byte>, digit: nat, i: nat, w: nat, k: nat, bias: nat, guarded: bool)
    requires w > 0 && input != [] && DigitValue(input[0]) == Some(digit)
    requires guarded ==> digit <= (MAX_INT - i) / w
    requires guarded && digit >= Threshold(k, bias) ==> w <= MAX_INT / (BASE - Threshold(k, bias))
    ensures ReadNumber(input, i, w, k, bias, guarded) ==
            var t := Threshold(k, bias);
            if digit < t then Some(Number(i + Times(digit, w), input[1..]))
            else ReadNumber(input[1..], i + Times(digit, w), Times(w, BASE - t), k + BASE, bias, guarded)
  {
  }

  /** Section 6.2 reads what section 6.3 writes, and no guard fires while the sum stays below the limit. */
  lemma {:induction false} ReadsNumberBack(q: nat, k: nat, bias: nat, i: nat, w: nat, rest: seq<Byte>, guarded: bool)
    requires w > 0
    requires guarded ==> IsSafe(q, k, bias, i, w)
    ensures ReadNumber(NumberDigits(q, k, bias) + rest, i, w, k, bias, guarded) == Some(Number(i + Times(q, w), rest))
    decreases q
  {
    hide ReadNumber, IsSafe, Over, Times;
    var t := Threshold(k, bias);
    var input := NumberDigits(q, k, bias) + rest;
    if guarded {
      GuardsPass(q, k, bias, i, w);
    }
    if q < t {
      assert input[1..] == rest;
      ReadStep(input, q, i, w, k, bias, guarded);
    } else {
      var digit, high, nextW := LowDigit(q, t), Over(q - t, BASE - t), Times(w, BASE - t);
      assert input[1..] == NumberDigits(high, k + BASE, bias) + rest;
      ReadStep(input, digit, i, w, k, bias, guarded);
      DigitSplit(q, t, w);
      ReadsNumberBack(high, k + BASE, bias, i + Times(digit, w), nextW, rest, guarded);
    }
  }

  lemma {:induction false} ReadsDelta(delta: nat, bias: nat, i: nat, guarded: bool)
    requires guarded ==> i + delta <= MAX_INT && bias <= MAX_BIAS
    ensures ReadNumber(NumberDigits(delta, BASE, bias), i, 1, BASE, bias, guarded) == Some(Number(i + delta, []))
  {
    assert NumberDigits(delta, BASE, bias) + [] == NumberDigits(delta, BASE, bias);
    TimesAdds(0, 0, delta);
    ReadsNumberBack(delta, BASE, bias, i, 1, [], guarded);
  }

  // ----- Runs of the decoder compose

  lemma {:induction false} ReadNumberExtends(input: seq<Byte>, more: seq<Byte>, i: nat, w: nat, k: nat, bias: nat,
                                             guarded: bool)
    requires w > 0
    requires ReadNumber(input, i, w, k, bias, guarded).Some?
    ensures ReadNumber(input + more, i, w, k, bias, guarded) ==
            Some(Number(ReadNumber(input, i, w, k, bias, guarded).value.value,
                        ReadNumber(input, i, w, k, bias, guarded).value.rest + more))
    decreases |input|
  {
    var digit := DigitValue(input[0]).value;
    var t := Threshold(k, bias);
    assert (input + more)[1..] == input[1..] + more;
    if digit >= t {
      ReadNumberExtends(input[1..], more, i + Times(digit, w), Times(w, BASE - t), k + BASE, bias, guarded);
    }
  }

  lemma {:induction false} RunComposes(digits: seq<Byte>, more: seq<Byte>, d: Decoder, guarded: bool)
    requires Run(digits, d, guarded).Some?
    ensures Run(digits + more, d, guarded) == Run(more, Run(digits, d, guarded).value, guarded)
    decreases |digits|
  {
    if digits == [] {
      assert digits + more == more;
    } else {
      ReadNumberExtends(digits, more, d.i, 1, BASE, d.bias, guarded);
      var number := ReadNumber(digits, d.i, 1, BASE, d.bias, guarded).value;
      RunComposes(number.rest, more, Insert(d, number.value, guarded).value, guarded);
    }
  }

  // ----- What a guarded run has read

  lemma {:induction false} ReadBelowLimit(input: seq<Byte>, i: nat, w: nat, k: nat, bias: nat)
    requires w > 0 && ReadNumber(input, i, w, k, bias, true).Some?
    ensures ReadNumber(input, i, w, k, bias, true).value.value <= MAX_INT
    decreases |input|
  {
    var digit := DigitValue(input[0]).value;
    var t := Threshold(k, bias);
    QuotientFits(digit, w, MAX_INT - i);
    if digit >= t {
      ReadBelowLimit(input[1..], i + Times(digit, w), Times(w, BASE - t), k + BASE, bias);
    }
  }

  /** A number that is there without guards, and with guards when more follows, is there with guards. */
  lemma {:induction false} ReadGuardedPrefix(input: seq<Byte>, more: seq<Byte>, i: nat, w: nat, k: nat, bias: nat)
    requires w > 0
    requires ReadNumber(input, i, w, k, bias, false).Some? && ReadNumber(input + more, i, w, k, bias, true).Some?
    ensures ReadNumber(input, i, w, k, bias, true) == ReadNumber(input, i, w, k, bias, false)
    decreases |input|
  {
    var digit := DigitValue(input[0]).value;
    var t := Threshold(k, bias);
    assert (input + more)[1..] == input[1..] + more;
    if digit >= t {
      ReadGuardedPrefix(input[1..], more, i + Times(digit, w), Times(w, BASE - t), k + BASE, bias);
    }
  }

  lemma {:induction false} RunGuardedPrefix(digits: seq<Byte>, more: seq<Byte>, d: Decoder)
    requires Run(digits, d, false).Some? && Run(digits + more, d, true).Some?
    ensures Run(digits, d, true).Some?
    decreases |digits|
  {
    if digits != [] {
      ReadGuardedPrefix(digits, more, d.i, 1, BASE, d.bias);
      ReadNumberExtends(digits, more, d.i, 1, BASE, d.bias, true);
      var number := ReadNumber(digits, d.i, 1, BASE, d.bias, true).value;
      RunGuardedPrefix(number.rest, more, Insert(d, number.value, true).value);
    }
  }

  // ----- The points of a label below a bound

  function Keep(s: seq<nat>, bound: nat): (kept: seq<nat>)
    ensures |kept| <= |s|
    ensures |kept| == |s| ==> kept == s
    ensures |kept| < |s| ==> exists j :: 0 <= j < |s| && s[j] >= bound
  {
    if s == [] then []
    else
      var last := |s| - 1;
      assert s == s[..last] + [s[last]];
      if s[last] < bound then Keep(s[..last], bound) + [s[last]]
      else Keep(s[..last], bound)
  }

  lemma {:induction false} KeepConcat(a: seq<nat>, b: seq<nat>, bound: nat)
    ensures Keep(a + b, bound) == Keep(a, bound) + Keep(b, bound)
    decreases |b|
  {
    if b == [] {
      assert a + b == a;
    } else {
      var last := |b| - 1;
      assert (a + b)[..|a + b| - 1] == a + b[..last];
      KeepConcat(a, b[..last], bound);
      var kept := if b[last] < bound then [b[last]] else [];
      assert Keep(a, bound) + Keep(b[..last], bound) + kept == Keep(a, bound) + (Keep(b[..last], bound) + kept);
    }
  }

  lemma {:induction false} KeepJump(s: seq<nat>, n: nat, m: nat)
    requires n <= m && forall x :: x in s ==> x < n || x >= m
    ensures Keep(s, m) == Keep(s, n)
  {
    if s != [] {
      var last := |s| - 1;
      assert s[last] in s;
      forall x | x in s[..last]
        ensures x < n || x >= m
      {
        assert x in s;
      }
      KeepJump(s[..last], n, m);
    }
  }

  /** The points handled when the pass for `n` has reached index `p`. */
  function Handled(chars: seq<nat>, n: nat, p: nat): seq<nat>
    requires p <= |chars|
  {
    Keep(chars[..p], n + 1) + Keep(chars[p..], n)
  }

  lemma {:induction false} HandledAt(chars: seq<nat>, n: nat, p: nat)
    requires p < |chars|
    ensures Keep(chars[..p + 1], n + 1) == Keep(chars[..p], n + 1) + Keep([chars[p]], n + 1)
    ensures Keep(chars[p..], n) == Keep([chars[p]], n) + Keep(chars[p + 1..], n)
  {
    assert chars[..p + 1] == chars[..p] + [chars[p]];
    assert chars[p..] == [chars[p]] + chars[p + 1..];
    KeepConcat(chars[..p], [chars[p]], n + 1);
    KeepConcat([chars[p]], chars[p + 1..], n);
  }

  lemma {:induction false} HandledBounds(chars: seq<nat>, n: nat)
    ensures Handled(chars, n, 0) == Keep(chars, n)
    ensures Handled(chars, n, |chars|) == Keep(chars, n + 1)
    ensures chars[..|chars|] == chars && Keep(chars[..0], n + 1) == []
  {
    assert chars[..0] == [] && chars[0..] == chars && chars[..|chars|] == chars && chars[|chars|..] == [];
  }

  /** The smallest point that is not below `n`. */
  function NextPoint(chars: seq<nat>, n: nat): (next: Option<nat>)
    ensures next.Some? ==> next.value in chars && next.value >= n
    ensures next.Some? ==> forall x :: x in chars ==> x < n || x >= next.value
    ensures next.None? ==> forall x :: x in chars ==> x < n
  {
    if chars == [] then None
    else
      var rest := NextPoint(chars[1..], n);
      var x := chars[0];
      assert forall y :: y in chars ==> y == x || y in chars[1..];
      if x >= n && (rest.None? || x < rest.value) then Some(x) else rest
  }

  // ----- Encoding (section 6.3)

  /** The greatest point that is not ASCII, or the first such point there is. */
  function Highest(s: seq<nat>): (n: nat)
    ensures n >= INITIAL_N
  {
    if s == [] then INITIAL_N
    else
      var before, last := Highest(s[..|s| - 1]), s[|s| - 1];
      if last > before then last else before
  }

  /** The position behind the last place of that point, or zero. */
  function Reach(s: seq<nat>): (at: nat)
    ensures at <= |s|
  {
    if s == [] then 0
    else if s[|s| - 1] >= Highest(s[..|s| - 1]) then |s|
    else Reach(s[..|s| - 1])
  }

  lemma {:induction false} HighestBelow(s: seq<nat>, bound: nat)
    requires bound >= INITIAL_N && forall k :: 0 <= k < |s| ==> s[k] <= bound
    ensures Highest(s) <= bound
  {
    if s != [] {
      HighestBelow(s[..|s| - 1], bound);
    }
  }

  lemma {:induction false} AsciiIsLow(s: seq<nat>)
    requires forall k :: 0 <= k < |s| ==> s[k] < INITIAL_N
    ensures Highest(s) == INITIAL_N && Reach(s) == 0
  {
    if s != [] {
      AsciiIsLow(s[..|s| - 1]);
    }
  }

  /** The point put in last is the greatest so far, and the last of its kind. */
  lemma {:induction false} PutIn(a: seq<nat>, n: nat, b: seq<nat>)
    requires n >= INITIAL_N
    requires forall k :: 0 <= k < |a| ==> a[k] <= n
    requires forall k :: 0 <= k < |b| ==> b[k] < n
    ensures Highest(a + [n] + b) == n && Reach(a + [n] + b) == |a| + 1
    decreases |b|
  {
    var s := a + [n] + b;
    if b == [] {
      assert s[..|s| - 1] == a;
      HighestBelow(a, n);
    } else {
      assert s[..|s| - 1] == a + [n] + b[..|b| - 1];
      PutIn(a, n, b[..|b| - 1]);
    }
  }

  lemma {:induction false} KeepBelow(s: seq<nat>, bound: nat)
    ensures forall k :: 0 <= k < |Keep(s, bound)| ==> Keep(s, bound)[k] < bound
  {
    if s != [] {
      KeepBelow(s[..|s| - 1], bound);
    }
  }

  lemma {:induction false} HandledBelow(chars: seq<nat>, p: nat)
    requires p < |chars| && chars[p] >= INITIAL_N
    ensures Highest(Handled(chars, chars[p], p)) <= chars[p]
  {
    KeepBelow(chars[..p], chars[p] + 1);
    KeepBelow(chars[p..], chars[p]);
    HighestBelow(Handled(chars, chars[p], p), chars[p]);
  }

  /**
    * What the decoder has counted to when it puts in the point at `p`: every
    * point is a round over the label so far, from the greatest point it holds.
    */
  function CountTo(chars: seq<nat>, p: nat): nat
    requires p < |chars| && chars[p] >= INITIAL_N
  {
    HandledBelow(chars, p);
    var handled := Handled(chars, chars[p], p);
    Times(chars[p] - Highest(handled), |handled| + 1) + |Keep(chars[..p], chars[p] + 1)|
  }

  /** What the encoder writes for that point: the decoder counts on from the place of the point before. */
  function DeltaTo(chars: seq<nat>, p: nat): int
    requires p < |chars| && chars[p] >= INITIAL_N
  {
    CountTo(chars, p) - Reach(Handled(chars, chars[p], p))
  }

  predicate IsLargeCount(chars: seq<nat>, p: nat) {
    p < |chars| && chars[p] >= INITIAL_N && CountTo(chars, p) > MAX_INT
  }

  predicate IsLargeDelta(chars: seq<nat>, p: nat) {
    p < |chars| && chars[p] >= INITIAL_N && DeltaTo(chars, p) > MAX_INT
  }

  predicate HasLargeCount(chars: seq<nat>) {
    exists p :: 0 <= p < |chars| && IsLargeCount(chars, p)
  }

  predicate HasLargeDelta(chars: seq<nat>) {
    exists p :: 0 <= p < |chars| && IsLargeDelta(chars, p)
  }

  /** The number of characters times the room their points take bounds what is counted. */
  lemma {:induction false} CountIsBounded(chars: seq<nat>, p: nat)
    requires p < |chars| && chars[p] >= INITIAL_N
    ensures DeltaTo(chars, p) <= CountTo(chars, p) < Times(chars[p] - INITIAL_N + 1, |chars|)
  {
    var n := chars[p];
    HandledBelow(chars, p);
    assert chars[p..][0] == n;
    KeepLeavesOut(chars[p..], n);
    var handled := Handled(chars, n, p);
    CountBound(n - Highest(handled), |handled|, |Keep(chars[..p], n + 1)|, n - INITIAL_N, |chars|);
  }

  lemma {:induction false} ShortLabelsHaveNoLargeCount(chars: seq<Scalar>)
    requires |chars| <= 1927
    ensures !HasLargeCount(chars) && !HasLargeDelta(chars)
  {
    forall p | 0 <= p < |chars|
      ensures !IsLargeCount(chars, p) && !IsLargeDelta(chars, p)
    {
      if chars[p] >= INITIAL_N {
        CountIsBounded(chars, p);
        TimesIsProduct(chars[p] - INITIAL_N + 1, |chars|);
        Monotone(chars[p] - INITIAL_N + 1, 1113984, |chars|);
      }
    }
  }

  /** The number the decoder reaches for point `n` at `at`, from its state and the encoder's delta. */
  lemma {:induction false} InsertsNext(d: Decoder, delta: nat, n: nat, at: nat, guarded: bool)
    requires at <= |d.output| && n >= d.n
    requires d.i + delta == Times(n - d.n, |d.output| + 1) + at
    requires guarded ==> n <= MAX_INT
    ensures Insert(d, d.i + delta, guarded) ==
            Some(Inserted(d, n, at, AdaptedBias(delta, |d.output| + 1, d.i == 0)))
  {
    TimesIsProduct(n - d.n, |d.output| + 1);
    DivMod(d.i + delta, n - d.n, |d.output| + 1, at);
  }

  /** One more number: the decoder that has read `digits` reads it and inserts the point. */
  lemma {:induction false} RunInserts(digits: seq<Byte>, start: Decoder, d: Decoder, delta: nat, n: nat, at: nat,
                                      guarded: bool)
    requires Run(digits, start, guarded) == Some(d)
    requires at <= |d.output| && n >= d.n
    requires d.i + delta == Times(n - d.n, |d.output| + 1) + at
    requires guarded ==> d.i + delta <= MAX_INT && d.bias <= MAX_BIAS && n <= MAX_INT
    ensures Run(digits + NumberDigits(delta, BASE, d.bias), start, guarded) ==
            Some(Inserted(d, n, at, AdaptedBias(delta, |d.output| + 1, d.i == 0)))
  {
    hide NumberDigits, AdaptedBias, ReadNumber;
    var number := NumberDigits(delta, BASE, d.bias);
    RunComposes(digits, number, start, guarded);
    ReadsDelta(delta, d.bias, d.i, guarded);
    InsertsNext(d, delta, n, at, guarded);
  }

  method PushNumber(output: seq<Byte>, delta: nat, bias: nat) returns (longer: seq<Byte>)
    ensures longer == output + NumberDigits(delta, BASE, bias)
  {
    longer := output;
    var q: nat, k: nat := delta, BASE;
    while q >= Threshold(k, bias)
      invariant longer + NumberDigits(q, k, bias) == output + NumberDigits(delta, BASE, bias)
      decreases q
    {
      var t := Threshold(k, bias);
      longer := longer + [Digit(LowDigit(q, t))];
      q := Over(q - t, BASE - t);
      k := k + BASE;
    }
    longer := longer + [Digit(q)];
  }

  /** The ASCII characters of a label, which are written first. */
  function Basic(chars: seq<nat>): (basic: seq<Byte>)
    ensures basic == Keep(chars, INITIAL_N) && IsAscii(basic)
  {
    if chars == [] then []
    else
      var last := |chars| - 1;
      if chars[last] < INITIAL_N then Basic(chars[..last]) + [chars[last]]
      else Basic(chars[..last])
  }

  predicate AreDigits(digits: seq<Byte>) {
    forall b :: b in digits ==> b < 128 && b != HYPHEN
  }

  /**
    * The encoder, at index `p` of its pass for `n`, and the decoder that has read
    * what it wrote: `delta` is how far the decoder has to count to get there.
    */
  ghost predicate Follows(chars: seq<nat>, n: nat, p: nat, d: Decoder, delta: nat, handled: nat, basic: nat) {
    && p <= |chars|
    && d.output == Handled(chars, n, p)
    && handled == |d.output|
    && INITIAL_N <= d.n <= n
    && (d.i == 0 <==> handled == basic)
    && basic <= handled
    && d.n == Highest(d.output) && d.i == Reach(d.output)
    && d.i + delta == Times(n - d.n, handled + 1) + |Keep(chars[..p], n + 1)|
  }

  lemma {:induction false} FollowsStart(chars: seq<nat>)
    ensures Follows(chars, INITIAL_N, 0, Start(Basic(chars)), 0, |Basic(chars)|, |Basic(chars)|)
  {
    HandledBounds(chars, INITIAL_N);
    KeepBelow(chars, INITIAL_N);
    AsciiIsLow(Basic(chars));
  }

  lemma {:induction false} FollowsJump(chars: seq<nat>, n: nat, next: nat, d: Decoder, delta: nat, handled: nat,
                                       basic: nat)
    requires Follows(chars, n, 0, d, delta, handled, basic)
    requires next >= n && forall x :: x in chars ==> x < n || x >= next
    ensures Follows(chars, next, 0, d, delta + Times(next - n, handled + 1), handled, basic)
  {
    hide Keep, Handled, Highest, Reach;
    HandledBounds(chars, n);
    HandledBounds(chars, next);
    KeepJump(chars, n, next);
    TimesAdds(n - d.n, next - n, handled + 1);
  }

  lemma {:induction false} FollowsPast(chars: seq<nat>, n: nat, p: nat, d: Decoder, delta: nat, handled: nat,
                                       basic: nat)
    requires Follows(chars, n, p, d, delta, handled, basic)
    requires p < |chars| && chars[p] != n
    ensures Follows(chars, n, p + 1, d, if chars[p] < n then delta + 1 else delta, handled, basic)
  {
    hide Keep, Highest, Reach;
    HandledAt(chars, n, p);
    KeepOne(chars[p], n);
    KeepOne(chars[p], n + 1);
    var before, after := Keep(chars[..p], n + 1), Keep(chars[p + 1..], n);
    assert before + [chars[p]] + after == before + ([chars[p]] + after) && before + [] + after == before + ([] + after);
  }

  lemma {:induction false} KeepOne(x: nat, bound: nat)
    ensures Keep([x], bound) == if x < bound then [x] else []
  {
    assert [x][..0] == [] && Keep([], bound) == [];
  }

  lemma {:induction false} FollowsTaken(chars: seq<nat>, n: nat, p: nat, d: Decoder, delta: nat, handled: nat,
                                        basic: nat, bias: nat)
    requires Follows(chars, n, p, d, delta, handled, basic)
    requires p < |chars| && chars[p] == n
    ensures var at := |Keep(chars[..p], n + 1)|;
            && at <= |d.output|
            && Follows(chars, n, p + 1, Inserted(d, n, at, bias), 0, handled + 1, basic)
  {
    hide Keep, Highest, Reach;
    TimesAdds(0, 0, handled + 2);
    HandledAt(chars, n, p);
    KeepOne(n, n);
    KeepOne(n, n + 1);
    var before, after := Keep(chars[..p], n + 1), Keep(chars[p + 1..], n);
    assert [] + after == after;
    KeepBelow(chars[..p], n + 1);
    KeepBelow(chars[p + 1..], n);
    PutIn(before, n, after);
    assert d.output[..|before|] == before && d.output[|before|..] == after;
  }

  lemma {:induction false} FollowsWrap(chars: seq<nat>, n: nat, d: Decoder, delta: nat, handled: nat, basic: nat)
    requires Follows(chars, n, |chars|, d, delta, handled, basic)
    ensures Follows(chars, n + 1, 0, d, delta + 1, handled, basic)
  {
    hide Keep, Handled, Highest, Reach;
    HandledBounds(chars, n);
    HandledBounds(chars, n + 1);
    TimesAdds(n - d.n, 1, handled + 1);
  }

  /** Where the encoder is to write a point, its delta and the decoder's count are those of the label. */
  lemma {:induction false} FollowsCount(chars: seq<nat>, n: nat, p: nat, d: Decoder, delta: nat, handled: nat,
                                        basic: nat)
    requires Follows(chars, n, p, d, delta, handled, basic) && p < |chars| && chars[p] == n
    ensures CountTo(chars, p) == d.i + delta && DeltaTo(chars, p) == delta
  {
    hide Keep, Handled, Highest, Reach;
  }

  /** On the way to the next place of its point the encoder's delta only grows. */
  lemma {:induction false} FollowsToNext(chars: seq<nat>, n: nat, p: nat, d: Decoder, delta: nat, handled: nat,
                                         basic: nat)
    returns (q: nat)
    requires Follows(chars, n, p, d, delta, handled, basic) && n in chars[p..]
    ensures q < |chars| && chars[q] == n && DeltaTo(chars, q) >= delta
    decreases |chars| - p
  {
    hide Follows, CountTo, DeltaTo, Handled;
    if chars[p] == n {
      q := p;
      FollowsCount(chars, n, p, d, delta, handled, basic);
    } else {
      assert chars[p..] == [chars[p]] + chars[p + 1..];
      FollowsPast(chars, n, p, d, delta, handled, basic);
      q := FollowsToNext(chars, n, p + 1, d, if chars[p] < n then delta + 1 else delta, handled, basic);
    }
  }

  /** A delta past the limit is one the label has, or the label is longer than the limit. */
  lemma {:induction false} LargeDeltaShows(chars: seq<nat>, n: nat, p: nat, d: Decoder, delta: nat, handled: nat,
                                           basic: nat)
    requires Follows(chars, n, p, d, delta, handled, basic) && delta > MAX_INT
    requires n in chars[p..] || n == d.n
    ensures HasLargeDelta(chars) || |chars| > MAX_INT
  {
    if n in chars[p..] {
      var q := FollowsToNext(chars, n, p, d, delta, handled, basic);
      assert IsLargeDelta(chars, q);
    } else {
      TimesAdds(0, 0, handled + 1);
    }
  }

  lemma {:induction false} CountBound(steps: nat, handled: nat, count: nat, span: nat, total: nat)
    requires steps <= span && count <= handled < total
    ensures Times(steps, handled + 1) + count < Times(span + 1, total)
  {
    TimesAdds(steps, 1, handled + 1);
    TimesGrows(steps + 1, span + 1, handled + 1, total);
  }

  lemma {:induction false} KeepLeavesOut(s: seq<nat>, n: nat)
    requires n in s
    ensures |Keep(s, n)| < |s|
  {
    var last := |s| - 1;
    if s[last] != n {
      assert s == s[..last] + [s[last]];
      KeepLeavesOut(s[..last], n);
    }
  }

  /** How far `n` may move before the delta passes the limit. */
  function Room(delta: nat, handled: nat): int {
    (MAX_INT - delta) / (handled + 1)
  }

  lemma {:induction false} RoomIsExact(delta: nat, handled: nat, steps: nat)
    ensures steps <= Room(delta, handled) <==> delta + Times(steps, handled + 1) <= MAX_INT
  {
    if steps <= Room(delta, handled) {
      QuotientFits(steps, handled + 1, MAX_INT - delta);
    } else if delta + Times(steps, handled + 1) <= MAX_INT {
      AtMostQuotient(steps, handled + 1, MAX_INT - delta);
    }
  }

  /** What the encoder returns, read by the decoder: the basic characters, a hyphen, the digits. */
  lemma {:induction false} PointsOf(basic: seq<Byte>, digits: seq<Byte>, skips: bool, guarded: bool)
    requires IsAscii(basic) && AreDigits(digits)
    ensures var input := Prefix(basic) + digits;
            && IsAscii(input)
            && Points(input, skips, guarded) ==
               match Run(digits, Start(basic), guarded)
               case None => None
               case Some(d) => Some(d.output)
  {
    var prefix := Prefix(basic);
    var input := prefix + digits;
    var at := AfterLastHyphen(input);
    assert prefix != [] ==> input[|prefix| - 1] == HYPHEN;
    assert forall j :: |prefix| <= j < |input| ==> input[j] in digits;
    assert at == |prefix|;
    assert input[at..] == digits;
    assert at > 0 ==> input[..at - 1] == basic;
  }

  /** The variables of `punycode_encode`. */
  datatype Encoder = Encoder(output: seq<Byte>, n: nat, delta: nat, bias: nat, handled: nat)

  function Prefix(basic: seq<Byte>): seq<Byte> {
    if basic == [] then [] else basic + [HYPHEN]
  }

  /** The point at `q` is written when the pass for `n` has reached index `p`. */
  predicate IsDone(chars: seq<nat>, n: nat, p: nat, q: nat) {
    q < |chars| && INITIAL_N <= chars[q] && (chars[q] < n || (chars[q] == n && q < p))
  }

  predicate CountsFit(chars: seq<nat>, n: nat, p: nat) {
    forall q :: 0 <= q < |chars| && IsDone(chars, n, p, q) ==> !IsLargeCount(chars, q)
  }

  predicate DeltasFit(chars: seq<nat>, n: nat, p: nat) {
    forall q :: 0 <= q < |chars| && IsDone(chars, n, p, q) ==> !IsLargeDelta(chars, q)
  }

  lemma {:induction false} SameDone(chars: seq<nat>, n: nat, p: nat, m: nat, r: nat)
    requires forall q :: 0 <= q < |chars| ==> IsDone(chars, n, p, q) == IsDone(chars, m, r, q)
    ensures CountsFit(chars, n, p) == CountsFit(chars, m, r) && DeltasFit(chars, n, p) == DeltasFit(chars, m, r)
  {
    hide IsDone, IsLargeCount, IsLargeDelta;
  }

  lemma {:induction false} OneMoreDone(chars: seq<nat>, p: nat)
    requires p < |chars| && chars[p] >= INITIAL_N
    ensures CountsFit(chars, chars[p], p + 1) <==> CountsFit(chars, chars[p], p) && !IsLargeCount(chars, p)
    ensures DeltasFit(chars, chars[p], p + 1) <==> DeltasFit(chars, chars[p], p) && !IsLargeDelta(chars, p)
  {
    hide IsLargeCount, IsLargeDelta;
    var n := chars[p];
    assert forall q :: 0 <= q < |chars| ==> (IsDone(chars, n, p + 1, q) <==> IsDone(chars, n, p, q) || q == p);
  }

  /** With guards, the decoder reads the digits when no count so far is past the limit, and refuses them otherwise. */
  ghost predicate IsRead(chars: seq<nat>, n: nat, p: nat, digits: seq<Byte>, d: Decoder) {
    && Run(digits, Start(Basic(chars)), false) == Some(d)
    && Run(digits, Start(Basic(chars)), true) == if CountsFit(chars, n, p) then Some(d) else None
  }

  /** The decoder that reads `digits` after the basic characters is the one the encoder follows. */
  ghost predicate Tracks(chars: seq<nat>, e: Encoder, p: nat, digits: seq<Byte>, d: Decoder) {
    && (forall x :: x in chars ==> x < 0x11_0000)
    && e.output == Prefix(Basic(chars)) + digits
    && AreDigits(digits)
    && e.bias == d.bias <= MAX_BIAS
    && Follows(chars, e.n, p, d, e.delta, e.handled, |Basic(chars)|)
    && DeltasFit(chars, e.n, p)
    && IsRead(chars, e.n, p, digits, d)
  }

  /**
    * The decoder reads the number of a point and inserts the point where the
    * label has it, unless its guards refuse the count.
    */
  lemma {:induction false} RunFollows(chars: seq<nat>, n: nat, p: nat, d: Decoder, delta: nat, handled: nat, basic: nat,
                                      digits: seq<Byte>, start: Decoder, guarded: bool)
    requires Follows(chars, n, p, d, delta, handled, basic)
    requires p < |chars| && chars[p] == n
    requires Run(digits, start, guarded) == Some(d)
    requires guarded ==> d.i + delta <= MAX_INT && d.bias <= MAX_BIAS && n <= MAX_INT
    ensures var at := |Keep(chars[..p], n + 1)|;
            && at <= |d.output|
            && Run(digits + NumberDigits(delta, BASE, d.bias), start, guarded) ==
               Some(Inserted(d, n, at, AdaptedBias(delta, handled + 1, handled == basic)))
  {
    hide Run, NumberDigits, AdaptedBias, Inserted, Highest, Reach;
    RunInserts(digits, start, d, delta, n, |Keep(chars[..p], n + 1)|, guarded);
  }

  /** A count past the limit is refused, and so is whatever follows something refused. */
  lemma {:induction false} RunRefuses(digits: seq<Byte>, start: Decoder, d: Decoder, delta: nat)
    requires Run(digits, start, false) == Some(d)
    requires Run(digits, start, true) == None || (Run(digits, start, true) == Some(d) && d.i + delta > MAX_INT)
    ensures Run(digits + NumberDigits(delta, BASE, d.bias), start, true) == None
  {
    var number := NumberDigits(delta, BASE, d.bias);
    if Run(digits + number, start, true).Some? {
      RunGuardedPrefix(digits, number, start);
      RunComposes(digits, number, start, true);
      CountIsRefused(d, delta);
    }
  }

  lemma {:induction false} CountIsRefused(d: Decoder, delta: nat)
    requires d.i + delta > MAX_INT
    ensures ReadNumber(NumberDigits(delta, BASE, d.bias), d.i, 1, BASE, d.bias, true) == None
  {
    hide NumberDigits;
    var number := NumberDigits(delta, BASE, d.bias);
    if ReadNumber(number, d.i, 1, BASE, d.bias, true).Some? {
      ReadNumberWithoutGuards(number, d.i, 1, BASE, d.bias);
      ReadBelowLimit(number, d.i, 1, BASE, d.bias);
      ReadsDelta(delta, d.bias, d.i, false);
    }
  }

  /** One more point, with guards and without. */
  lemma {:induction false} ReadsPoint(chars: seq<nat>, e: Encoder, p: nat, digits: seq<Byte>, d: Decoder)
    requires Tracks(chars, e, p, digits, d) && p < |chars| && chars[p] == e.n
    ensures var at := |Keep(chars[..p], e.n + 1)|;
            var bias := AdaptedBias(e.delta, e.handled + 1, e.handled == |Basic(chars)|);
            && at <= |d.output|
            && IsRead(chars, e.n, p + 1, digits + NumberDigits(e.delta, BASE, e.bias), Inserted(d, e.n, at, bias))
  {
    hide Highest, Reach, Basic, Prefix, Keep, CountTo, DeltaTo, Handled, Run, NumberDigits, AdaptedBias, Inserted;
    hide DeltasFit;
    assert chars[p] in chars && e.n <= MAX_INT;
    FollowsCount(chars, e.n, p, d, e.delta, e.handled, |Basic(chars)|);
    assert e.n >= INITIAL_N;
    OneMoreDone(chars, p);
    assert IsLargeCount(chars, p) <==> d.i + e.delta > MAX_INT;
    hide Follows, CountsFit, IsLargeCount;
    var start := Start(Basic(chars));
    RunFollows(chars, e.n, p, d, e.delta, e.handled, |Basic(chars)|, digits, start, false);
    if CountsFit(chars, e.n, p) && d.i + e.delta <= MAX_INT {
      RunFollows(chars, e.n, p, d, e.delta, e.handled, |Basic(chars)|, digits, start, true);
    } else {
      RunRefuses(digits, start, d, e.delta);
    }
  }

  /** One point written: its number, and the bias for the next. */
  method EncodePoint(chars: seq<nat>, e: Encoder, p: nat, ghost digits: seq<Byte>, ghost d: Decoder)
    returns (next: Encoder, ghost longer: seq<Byte>, ghost after: Decoder)
    requires Tracks(chars, e, p, digits, d) && p < |chars| && chars[p] == e.n && e.delta <= MAX_INT
    ensures Tracks(chars, next, p + 1, longer, after) && next.n == e.n == after.n && next.delta == 0
  {
    hide Follows, IsRead, NumberDigits, AdaptedBias, Inserted, Keep, CountTo, DeltaTo, CountsFit, DeltasFit;
    ghost var basic := |Basic(chars)|;
    var output := PushNumber(e.output, e.delta, e.bias);
    var bias := Adapt(e.delta, e.handled + 1, e.handled == |Basic(chars)|);
    next := Encoder(output, e.n, 0, bias, e.handled + 1);

    longer := digits + NumberDigits(e.delta, BASE, e.bias);
    BiasBound(e.delta, e.handled + 1, e.handled == basic);
    FollowsHere(chars, e.n, p, d, e.delta, e.handled, basic);
    FollowsTaken(chars, e.n, p, d, e.delta, e.handled, basic, bias);
    OneMoreDone(chars, p);
    ReadsPoint(chars, e, p, digits, d);
    after := Inserted(d, e.n, |Keep(chars[..p], e.n + 1)|, bias);
    InsertedFields(d, e.n, |Keep(chars[..p], e.n + 1)|, bias);
  }

  lemma {:induction false} FollowsHere(chars: seq<nat>, n: nat, p: nat, d: Decoder, delta: nat, handled: nat,
                                       basic: nat)
    requires Follows(chars, n, p, d, delta, handled, basic) && p < |chars| && chars[p] == n
    ensures n >= INITIAL_N && (IsLargeDelta(chars, p) <==> delta > MAX_INT)
  {
    FollowsCount(chars, n, p, d, delta, handled, basic);
  }

  lemma {:induction false} InsertedFields(d: Decoder, n: nat, at: nat, bias: nat)
    requires at <= |d.output|
    ensures Inserted(d, n, at, bias).n == n && Inserted(d, n, at, bias).bias == bias
  {
  }

  lemma {:induction false} TracksPast(chars: seq<nat>, e: Encoder, p: nat, digits: seq<Byte>, d: Decoder)
    requires Tracks(chars, e, p, digits, d) && p < |chars| && chars[p] != e.n
    ensures Tracks(chars, if chars[p] < e.n then e.(delta := e.delta + 1) else e, p + 1, digits, d)
  {
    hide Follows, Keep, Run, Basic, CountsFit, DeltasFit;
    FollowsPast(chars, e.n, p, d, e.delta, e.handled, |Basic(chars)|);
    SameDone(chars, e.n, p, e.n, p + 1);
  }

  lemma {:induction false} TracksLarge(chars: seq<nat>, e: Encoder, p: nat, digits: seq<Byte>, d: Decoder)
    requires Tracks(chars, e, p, digits, d) && e.delta > MAX_INT
    requires p <= |chars| && (e.n in chars[p..] || e.n == d.n)
    ensures HasLargeDelta(chars) || |chars| > MAX_INT
  {
    hide Follows, Run, Basic, CountsFit, DeltasFit, HasLargeDelta;
    LargeDeltaShows(chars, e.n, p, d, e.delta, e.handled, |Basic(chars)|);
  }

  /** The pass over the label for one value of `n`. */
  method EncodePass(chars: seq<nat>, start: Encoder, ghost digits: seq<Byte>, ghost d: Decoder)
    returns (r: Option<Encoder>, ghost longer: seq<Byte>, ghost after: Decoder)
    requires Tracks(chars, start, 0, digits, d) && start.n in chars && start.delta <= MAX_INT
    ensures r.Some? ==> Tracks(chars, r.value, |chars|, longer, after) && r.value.n == start.n
    ensures r.None? ==> HasLargeDelta(chars) || |chars| > MAX_INT
  {
    hide Tracks, HasLargeDelta;
    var e := start;
    longer, after := digits, d;
    assert chars[0..] == chars;
    for p := 0 to |chars|
      invariant Tracks(chars, e, p, longer, after) && e.n == start.n && e.delta <= MAX_INT
      invariant e.n in chars[p..] || e.n == after.n
    {
      assert chars[p..] == [chars[p]] + chars[p + 1..];
      if chars[p] != e.n {
        TracksPast(chars, e, p, longer, after);
      }
      if chars[p] < e.n {
        e := e.(delta := e.delta + 1);
        if e.delta > MAX_INT {
          TracksLarge(chars, e, p + 1, longer, after);
          return None, longer, after;
        }
      }
      if chars[p] == e.n {
        e, longer, after := EncodePoint(chars, e, p, longer, after);
      }
    }
    return Some(e), longer, after;
  }

  lemma {:induction false} TracksStart(chars: seq<nat>)
    requires forall x :: x in chars ==> x < 0x11_0000
    ensures var e := Encoder(Prefix(Basic(chars)), INITIAL_N, 0, INITIAL_BIAS, |Basic(chars)|);
            Tracks(chars, e, 0, [], Start(Basic(chars)))
  {
    hide Basic, Prefix;
    FollowsStart(chars);
    assert forall q :: 0 <= q < |chars| ==> !IsDone(chars, INITIAL_N, 0, q);
  }

  lemma {:induction false} NextExists(chars: seq<nat>, n: nat)
    requires |Keep(chars, n)| < |chars|
    ensures NextPoint(chars, n).Some?
  {
    var j :| 0 <= j < |chars| && chars[j] >= n;
    assert chars[j] in chars;
  }

  lemma {:induction false} FollowsNext(chars: seq<nat>, n: nat, d: Decoder, delta: nat, handled: nat, basic: nat)
    requires Follows(chars, n, 0, d, delta, handled, basic) && handled < |chars|
    ensures NextPoint(chars, n).Some?
  {
    HandledBounds(chars, n);
    NextExists(chars, n);
  }

  /** While points are left there is a next one. */
  lemma {:induction false} TracksJump(chars: seq<nat>, e: Encoder, digits: seq<Byte>, d: Decoder)
    requires Tracks(chars, e, 0, digits, d) && e.handled < |chars|
    ensures NextPoint(chars, e.n).Some?
    ensures var next := NextPoint(chars, e.n).value;
            Tracks(chars, e.(delta := e.delta + Times(next - e.n, e.handled + 1), n := next), 0, digits, d)
  {
    hide Run, NextPoint, Keep, Basic, Follows, AreDigits, Start, Prefix, CountsFit, DeltasFit;
    FollowsNext(chars, e.n, d, e.delta, e.handled, |Basic(chars)|);
    var next := NextPoint(chars, e.n).value;
    FollowsJump(chars, e.n, next, d, e.delta, e.handled, |Basic(chars)|);
    assert forall q :: 0 <= q < |chars| ==> chars[q] in chars;
    SameDone(chars, e.n, 0, next, 0);
  }

  lemma {:induction false} TracksWrap(chars: seq<nat>, e: Encoder, digits: seq<Byte>, d: Decoder)
    requires Tracks(chars, e, |chars|, digits, d)
    ensures Tracks(chars, e.(delta := e.delta + 1, n := e.n + 1), 0, digits, d)
  {
    hide Run, Follows, Keep, Basic, Prefix, Start, CountsFit, DeltasFit;
    FollowsWrap(chars, e.n, d, e.delta, e.handled, |Basic(chars)|);
    SameDone(chars, e.n, |chars|, e.n + 1, 0);
  }

  lemma {:induction false} AllDone(chars: seq<nat>, n: nat)
    requires |Keep(chars, n)| == |chars|
    ensures CountsFit(chars, n, 0) <==> !HasLargeCount(chars)
    ensures DeltasFit(chars, n, 0) <==> !HasLargeDelta(chars)
  {
    hide Keep, CountTo, DeltaTo;
    KeepBelow(chars, n);
    assert forall q :: 0 <= q < |chars| && chars[q] >= INITIAL_N ==> IsDone(chars, n, 0, q);
  }

  lemma {:induction false} TracksEnd(chars: seq<nat>, e: Encoder, digits: seq<Byte>, d: Decoder, skips: bool)
    requires Tracks(chars, e, 0, digits, d) && e.handled >= |chars|
    ensures IsAscii(e.output) && Points(e.output, skips, false) == Some(chars) && !HasLargeDelta(chars)
    ensures Points(e.output, skips, true) == if HasLargeCount(chars) then None else Some(chars)
  {
    hide Run, Points, CountsFit, DeltasFit, HasLargeCount, HasLargeDelta, Highest, Reach;
    HandledBounds(chars, e.n);
    AllDone(chars, e.n);
    PointsOf(Basic(chars), digits, skips, false);
    PointsOf(Basic(chars), digits, skips, true);
  }

  /** The loop of `punycode_encode` over the code points of the label. */
  method EncodePoints(chars: seq<nat>) returns (r: Option<seq<Byte>>)
    requires forall x :: x in chars ==> x < 0x11_0000
    ensures r.Some? ==> IsAscii(r.value) && forall skips :: Points(r.value, skips, false) == Some(chars)
    ensures r.Some? ==> forall skips ::
              Points(r.value, skips, true) == if HasLargeCount(chars) then None else Some(chars)
    ensures r.Some? ==> !HasLargeDelta(chars)
    ensures r.None? ==> HasLargeDelta(chars) || |chars| > MAX_INT
  {
    hide Tracks, Points, NextPoint, Room, HasLargeDelta, HasLargeCount;
    var e := Encoder(Prefix(Basic(chars)), INITIAL_N, 0, INITIAL_BIAS, |Basic(chars)|);
    ghost var digits: seq<Byte>, d := [], Start(Basic(chars));
    TracksStart(chars);
    while e.handled < |chars|
      invariant Tracks(chars, e, 0, digits, d) && e.n <= 0x11_0000
      decreases 0x11_0000 - e.n
    {
      TracksJump(chars, e, digits, d);
      var next := NextPoint(chars, e.n).value;
      RoomIsExact(e.delta, e.handled, next - e.n);
      if next - e.n > Room(e.delta, e.handled) {
        assert chars[0..] == chars;
        TracksLarge(chars, e.(delta := e.delta + Times(next - e.n, e.handled + 1), n := next), 0, digits, d);
        return None;
      }
      e := e.(delta := e.delta + Times(next - e.n, e.handled + 1), n := next);
      var passed;
      passed, digits, d := EncodePass(chars, e, digits, d);
      if passed == None {
        return None;
      }
      e := passed.value;
      TracksWrap(chars, e, digits, d);
      e := e.(delta := e.delta + 1, n := e.n + 1);
    }
    TracksEnd(chars, e, digits, d, false);
    TracksEnd(chars, e, digits, d, true);
    return Some(e.output);
  }

  /**
    * `punycode_encode`. It returns exactly when no delta of the label is past the
    * limit. Without guards what it returns decodes to the label; with guards, as
    * the program decodes it, it does exactly when no count is past the limit, and
    * is refused otherwise.
    */
  method Encode(chars: seq<Scalar>) returns (r: Option<seq<Byte>>)
    ensures |chars| <= MAX_INT ==> (r.Some? <==> !HasLargeDelta(chars))
    ensures r.Some? ==> IsAscii(r.value) && forall skips :: Points(r.value, skips, false) == Some(chars)
    ensures r.Some? ==> forall skips ::
              Points(r.value, skips, true) == if HasLargeCount(chars) then None else Some(chars)
  {
    var points: seq<nat> := chars;
    r := EncodePoints(points);
  }

  // ----- A label the program encodes and does not decode

  lemma {:induction false} KeepAll(s: seq<nat>, bound: nat)
    requires forall k :: 0 <= k < |s| ==> s[k] < bound
    ensures Keep(s, bound) == s
  {
    if s != [] {
      KeepAll(s[..|s| - 1], bound);
      assert s == s[..|s| - 1] + [s[|s| - 1]];
    }
  }

  lemma {:induction false} KeepNone(s: seq<nat>, bound: nat)
    requires forall k :: 0 <= k < |s| ==> s[k] >= bound
    ensures Keep(s, bound) == []
  {
    if s != [] {
      KeepNone(s[..|s| - 1], bound);
    }
  }

  /** One character more than the labels that are always decoded: `a` 1926 times, U+0080 and U+10FF70. */
  predicate IsTheLabel(chars: seq<nat>) {
    && |chars| == 1928 && chars[1926] == 0x80 && chars[1927] == 0x10_ff70
    && forall k :: 0 <= k < 1926 ==> chars[k] == 0x61
  }

  lemma {:induction false} FirstCount(chars: seq<nat>)
    requires IsTheLabel(chars)
    ensures DeltaTo(chars, 1926) <= MAX_INT
  {
    CountIsBounded(chars, 1926);
    TimesIsProduct(1, 1928);
  }

  lemma {:induction false} SecondCount(chars: seq<nat>)
    requires IsTheLabel(chars)
    ensures CountTo(chars, 1927) == 2147485447 && DeltaTo(chars, 1927) == 2147483520
  {
    var before, n := chars[..1927], 0x10_ff70;
    KeepAll(before, n + 1);
    KeepNone(chars[1927..], n);
    assert before + [] == before == chars[..1926] + [0x80] + [];
    PutIn(chars[..1926], 0x80, []);
    TimesIsProduct(n - 0x80, 1928);
  }

  method EncodesWhatItCannotDecode() returns (chars: seq<nat>, encoded: seq<Byte>)
    ensures |chars| == 1928 && forall skips :: Points(encoded, skips, false) == Some(chars)
    ensures forall skips :: Points(encoded, skips, true) == None
  {
    hide Points, HasLargeCount, HasLargeDelta;
    chars := seq(1928, k => if k < 1926 then 0x61 else if k == 1926 then 0x80 else 0x10_ff70);
    TheLabelCounts(chars);
    var r := EncodePoints(chars);
    encoded := r.value;
  }

  lemma {:induction false} TheLabelCounts(chars: seq<nat>)
    requires IsTheLabel(chars)
    ensures HasLargeCount(chars) && !HasLargeDelta(chars)
  {
    FirstCount(chars);
    SecondCount(chars);
    assert IsLargeCount(chars, 1927);
  }
}
