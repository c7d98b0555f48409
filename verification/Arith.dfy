/** Division and rounding to a multiple, for divisors that are variables. */
module Arith {

  lemma MulLe(a: int, b: int, m: nat)
    requires a <= b
    ensures a * m <= b * m
  {
  }

  lemma QuotientUnique(d: nat, p: nat, i: nat)
    requires p > 0 && i * p <= d < i * p + p
    ensures d / p == i && d % p == d - i * p
  {
    var q := d / p;
    assert d == q * p + d % p;
    assert (q + 1) * p == q * p + p && (i + 1) * p == i * p + p;
    if q < i {
      MulLe(q + 1, i, p);
    } else if i < q {
      MulLe(i + 1, q, p);
    }
  }

  lemma DivisionLaw(x: nat, m: nat)
    requires m > 0
    ensures x == (x / m) * m + x % m && x % m < m
  {
  }

  function RoundDown(x: nat, m: nat): (r: nat)
    requires m > 0
    ensures r <= x < r + m
  {
    x - x % m
  }

  function RoundUp(x: nat, m: nat): (r: nat)
    requires m > 0
    ensures x <= r < x + m
  {
    x + (m - x % m) % m
  }

  lemma RoundDownIs(x: nat, m: nat)
    requires m > 0
    ensures RoundDown(x, m) == (x / m) * m
  {
    DivisionLaw(x, m);
  }

  lemma RoundUpIs(x: nat, m: nat)
    requires m > 0
    ensures RoundUp(x, m) == if x % m == 0 then x else (x / m) * m + m
  {
    DivisionLaw(x, m);
    if x % m == 0 {
      QuotientUnique(m, m, 1);
    } else {
      QuotientUnique(m - x % m, m, 0);
    }
  }

  /** RoundDown and RoundUp yield multiples. */
  lemma RoundsToMultiples(x: nat, m: nat)
    requires m > 0
    ensures RoundDown(x, m) % m == 0 && RoundUp(x, m) % m == 0
  {
    RoundDownIs(x, m);
    RoundUpIs(x, m);
    var q := x / m;
    QuotientUnique(q * m, m, q);
    assert (q + 1) * m == q * m + m;
    QuotientUnique(q * m + m, m, q + 1);
  }

  /** No multiple of m lies strictly between a number and its roundings. */
  lemma RoundingIsTight(x: nat, m: nat, y: nat)
    requires m > 0 && y % m == 0
    ensures y <= x ==> y <= RoundDown(x, m)
    ensures x <= y ==> RoundUp(x, m) <= y
  {
    DivisionLaw(x, m);
    DivisionLaw(y, m);
    RoundDownIs(x, m);
    RoundUpIs(x, m);
    var p, q := y / m, x / m;
    if p <= q {
      MulLe(p, q, m);
    } else {
      MulLe(q + 1, p, m);
      assert (q + 1) * m == q * m + m;
    }
  }

  lemma SumOfMultiples(x: nat, y: nat, m: nat)
    requires m > 0 && x % m == 0 && y % m == 0
    ensures (x + y) % m == 0
    ensures x <= y ==> (y - x) % m == 0
  {
    DivisionLaw(x, m);
    DivisionLaw(y, m);
    var p, q := x / m, y / m;
    assert (p + q) * m == p * m + q * m;
    QuotientUnique(x + y, m, p + q);
    assert (q + 1) * m == q * m + m;
    if x <= y {
      if q < p { MulLe(q + 1, p, m); }
      assert (q - p) * m == q * m - p * m;
      QuotientUnique(y - x, m, q - p);
    }
  }

  lemma MultipleOfMultiple(x: nat, p: nat, m: nat)
    requires p > 0 && m > 0 && x % p == 0 && p % m == 0
    ensures x % m == 0
  {
    DivisionLaw(x, p);
    DivisionLaw(p, m);
    assert (x / p) * ((p / m) * m) == ((x / p) * (p / m)) * m;
    QuotientUnique(x, m, (x / p) * (p / m));
  }
}
