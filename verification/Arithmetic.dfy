/** Facts about products and quotients the solver does not find in larger contexts. */
module Arithmetic {
  /** The product, defined by addition: the solver meets nonlinear arithmetic only where a lemma lets it in. */
  function Times(a: nat, b: nat): (p: nat)
    ensures a > 0 && b > 0 ==> p > 0
  {
    if a == 0 then 0 else Times(a - 1, b) + b
  }

  lemma {:induction false} TimesIsProduct(a: nat, b: nat)
    ensures Times(a, b) == a * b
  {
    if a > 0 {
      TimesIsProduct(a - 1, b);
      Distribute(a - 1, 1, b);
    }
  }

  lemma {:induction false} TimesAdds(a: nat, b: nat, c: nat)
    ensures Times(a + b, c) == Times(a, c) + Times(b, c)
    ensures Times(0, c) == 0 && Times(1, c) == c && Times(c, 1) == c
  {
    TimesIsProduct(a + b, c);
    TimesIsProduct(a, c);
    TimesIsProduct(b, c);
    TimesIsProduct(c, 1);
    TimesIsProduct(1, c);
    Distribute(a, b, c);
  }

  lemma {:induction false} TimesRegroups(a: nat, b: nat, c: nat)
    ensures Times(a, Times(c, b)) == Times(Times(a, b), c)
    decreases a
  {
    if a > 0 {
      TimesRegroups(a - 1, b, c);
      TimesAdds(Times(a - 1, b), b, c);
      TimesCommutes(b, c);
    }
  }

  lemma {:induction false} TimesCommutes(a: nat, b: nat)
    ensures Times(a, b) == Times(b, a)
  {
    TimesIsProduct(a, b);
    TimesIsProduct(b, a);
  }

  lemma {:induction false} TimesGrows(a: nat, b: nat, c: nat, d: nat)
    requires a <= b && c <= d
    ensures Times(a, c) <= Times(b, d)
  {
    TimesIsProduct(a, c);
    TimesIsProduct(b, d);
    Monotone(a, b, c);
    Monotone(c, d, b);
  }

  function Over(a: nat, b: nat): (q: nat)
    requires b > 0
    ensures q <= a
    ensures a > 0 && b > 1 ==> q < a
  {
    QuotientBound(a, b);
    a / b
  }

  lemma {:induction false} Monotone(a: int, b: int, c: nat)
    requires a <= b
    ensures a * c <= b * c
  {
  }

  lemma {:induction false} Distribute(a: int, b: int, c: int)
    ensures (a + b) * c == a * c + b * c
  {
  }

  lemma {:induction false} QuotientBound(a: nat, b: nat)
    requires b > 0
    ensures 0 <= a / b <= a
    ensures a > 0 && b > 1 ==> a / b < a
  {
    var q := a / b;
    assert a == q * b + a % b;
    if q < 0 {
      Monotone(q, -1, b);
      assert false;
    }
    Monotone(1, b, q);
    if b > 1 {
      Monotone(2, b, q);
    }
  }

  /** Division with remainder has one answer. */
  lemma {:induction false} DivMod(x: int, q: int, b: nat, r: nat)
    requires r < b && x == q * b + r
    ensures x / b == q && x % b == r
  {
    var p := x / b;
    assert x == p * b + x % b;
    if p < q {
      Monotone(p + 1, q, b);
      assert false;
    } else if p > q {
      Monotone(q + 1, p, b);
      assert false;
    }
  }

  lemma {:induction false} DivisionByTimes(a: nat, b: nat)
    requires b > 0
    ensures a == Times(Over(a, b), b) + a % b
  {
    TimesIsProduct(Over(a, b), b);
  }

  lemma {:induction false} AtMostQuotient(a: nat, b: nat, room: nat)
    requires b > 0 && Times(a, b) <= room
    ensures a <= room / b
  {
    var q := room / b;
    assert room == q * b + room % b;
    TimesIsProduct(a, b);
    if a > q {
      Monotone(q + 1, a, b);
      assert false;
    }
  }

  /** The other way round, when there may be no room. */
  lemma {:induction false} QuotientFits(a: nat, b: nat, room: int)
    requires b > 0 && a <= room / b
    ensures Times(a, b) <= room
  {
    var q := room / b;
    assert room == q * b + room % b;
    TimesIsProduct(a, b);
    Monotone(a, q, b);
  }

  lemma {:induction false} OverAtMost(a: nat, b: nat, c: nat)
    requires b > 0 && a <= Times(c, b)
    ensures Over(a, b) <= c
  {
    var q := a / b;
    assert a == q * b + a % b;
    TimesIsProduct(c, b);
    if q > c {
      Monotone(c + 1, q, b);
      Distribute(c, 1, b);
    }
  }

  lemma {:induction false} OverShrinks(a: nat, b: nat, limit: nat)
    requires b > 0 && a < b * limit
    ensures Over(a, b) < limit
  {
    var q := a / b;
    assert a == q * b + a % b;
    if q >= limit {
      Monotone(limit, q, b);
    }
  }

  lemma {:induction false} OverHalves(a: nat, b: nat)
    requires b >= 2
    ensures 2 * Over(a, b) <= a
  {
    var q := a / b;
    assert a == q * b + a % b;
    Monotone(2, b, q);
  }
}
