/**
 Rounding to double precision, for positive numbers in the normal range: 53 significant bits, to the
 nearest, and either way on a tie.
 */
module Doubles {
  function Pow2(e: int): (p: real)
    ensures p > 0.0
    decreases if e < 0 then -e else e
  {
    if e == 0 then 1.0 else if e > 0 then 2.0 * Pow2(e - 1) else Pow2(e + 1) / 2.0
  }

  function Product(a: real, b: real): real {
    a * b
  }

  const TWO_52: real := 4503599627370496.0
  const TWO_53: real := 9007199254740992.0

  /** x lies between the numbers that 53 bits in units of p reach, and r, which is m units, is no
      further away than half a unit. */
  ghost predicate RoundedIn(x: real, r: real, p: real, m: int) {
    TWO_52 * p <= x < TWO_53 * p && r == Product(m as real, p) && -p <= 2.0 * (r - x) <= p
  }

  ghost predicate IsRounded(x: real, r: real) {
    exists e: int, m: int :: RoundedIn(x, r, Pow2(e), m)
  }

  /** r differs from x by at most one part in 2^53. */
  predicate IsClose(x: real, r: real) {
    x > 0.0 && -x <= TWO_53 * (r - x) <= x
  }

  lemma RoundedIsClose(x: real, r: real)
    requires IsRounded(x, r)
    ensures IsClose(x, r)
  {
    var e, m :| RoundedIn(x, r, Pow2(e), m);
    HalfUnitIsClose(x, r, Pow2(e), m);
  }

  lemma HalfUnitIsClose(x: real, r: real, p: real, m: int)
    requires p > 0.0 && RoundedIn(x, r, p, m)
    ensures IsClose(x, r)
  {
    assert TWO_53 * (r - x) == TWO_52 * (2.0 * (r - x));
  }

  lemma {:induction false} Pow2Grows(a: int, b: int)
    requires a < b
    ensures 2.0 * Pow2(a) <= Pow2(b)
    decreases b - a
  {
    assert Pow2(b) == 2.0 * Pow2(b - 1);
    if a < b - 1 { Pow2Grows(a, b - 1); }
  }

  /** The unit is determined by the number. */
  lemma UnitIs(x: real, e: int, k: int)
    requires TWO_52 * Pow2(e) <= x < TWO_53 * Pow2(e) && TWO_52 * Pow2(k) <= x < TWO_53 * Pow2(k)
    ensures e == k
  {
    if e < k { Pow2Grows(e, k); }
    if k < e { Pow2Grows(k, e); }
  }

  lemma AtLeastOnce(d: real, p: real)
    requires d >= 1.0 && p > 0.0
    ensures Product(d, p) >= p
  {
    assert (d - 1.0) * p >= 0.0;
  }

  lemma ProductOfDifference(a: real, b: real, p: real)
    ensures Product(a, p) - Product(b, p) == Product(a - b, p)
    ensures Product(a - b, p) == -Product(b - a, p)
  {
  }

  lemma NearMultiples(m: int, n: int, p: real)
    requires p > 0.0 && -p < Product(m as real, p) - Product(n as real, p) < p
    ensures m == n
  {
    ProductOfDifference(m as real, n as real, p);
    if m > n { AtLeastOnce((m as real) - (n as real), p); }
    if m < n { AtLeastOnce((n as real) - (m as real), p); }
  }

  lemma TwoNear(x: real, a: real, b: real, p: real)
    requires -p <= 2.0 * (a - x) <= p && -p < 2.0 * (b - x) < p
    ensures -p < a - b < p
  {
  }

  /** Less than half a unit away from a multiple of the unit, there is only one way to round. */
  lemma OneWay(x: real, r: real, p: real, m: int, n: int)
    requires p > 0.0 && RoundedIn(x, r, p, m) && -p < 2.0 * (Product(n as real, p) - x) < p
    ensures r == Product(n as real, p)
  {
    TwoNear(x, r, Product(n as real, p), p);
    NearMultiples(m, n, p);
  }

  lemma {:induction false} RoundsTo(x: real, r: real, k: int, p: real, n: int)
    requires IsRounded(x, r) && p == Pow2(k) && TWO_52 * p <= x < TWO_53 * p
    requires -p < 2.0 * (Product(n as real, p) - x) < p
    ensures r == Product(n as real, p)
  {
    var e, m :| RoundedIn(x, r, Pow2(e), m);
    UnitIs(x, e, k);
    OneWay(x, r, p, m, n);
  }

  lemma ProductIsLarger(a: real, u: real, b: real)
    requires a < u && b > 0.0
    ensures Product(a, b) < Product(u, b)
  {
    assert (u - a) * b > 0.0;
  }

  lemma ProductOfScaled(a: real, b: real)
    ensures Product(TWO_53 * a, b) == TWO_53 * Product(a, b) && Product(-a, b) == -Product(a, b)
  {
  }

  /** A small error stays as small, relative to the number, when both are scaled. */
  lemma ScaledIsClose(x: real, r: real, b: real)
    requires IsClose(x, r) && b > 0.0
    ensures IsClose(Product(x, b), Product(r, b))
  {
    var d := TWO_53 * (r - x);
    ProductIsLarger(0.0, x, b);
    ProductOfDifference(r, x, b);
    ProductOfScaled(r - x, b);
    ProductOfScaled(x, b);
    if d < x { ProductIsLarger(d, x, b); }
    if -x < d { ProductIsLarger(-x, d, b); }
  }

  /** A whole number is a multiple of every power of two up to one. */
  lemma {:induction false} MultipleOfPow2(n: nat, e: int) returns (k: nat)
    requires e <= 0
    ensures n as real == Product(k as real, Pow2(e))
    decreases -e
  {
    if e == 0 {
      k := n;
    } else {
      var j := MultipleOfPow2(n, e + 1);
      k := 2 * j;
      HalfTwice(j, Pow2(e + 1));
    }
  }

  lemma HalfTwice(j: nat, p: real)
    ensures Product((2 * j) as real, p / 2.0) == Product(j as real, p)
  {
  }

  /** Whole numbers below 2^53 are not changed by rounding. */
  lemma WholeNumbersStay(n: nat, r: real)
    requires n < 9007199254740992 && IsRounded(n as real, r)
    ensures r == n as real
  {
    var e, m :| RoundedIn(n as real, r, Pow2(e), m);
    if e > 0 { Pow2Grows(0, e); }
    var k := MultipleOfPow2(n, e);
    OneWay(n as real, r, Pow2(e), m, k);
  }
}
