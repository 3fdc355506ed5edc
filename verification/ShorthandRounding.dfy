/**
 The shorthand for token limits in double precision (src/lib/quota.ts): how far the results of exact
 arithmetic carry over, and where they stop.
 */
module ShorthandRounding {
  import opened Text
  import opened Arithmetic
  import opened Quota
  import opened Doubles

  /** What `toFixed(2)` prints for q, in hundredths: the nearest, the larger one on a tie. */
  predicate FixedTwo(q: real, h: nat) {
    q - 0.005 < h as real / 100.0 <= q + 0.005
  }

  /** What `Math.round` makes of t: the nearest, the larger one on a tie. */
  function Round(t: real): int {
    (t + 0.5).Floor
  }

  /** The numbers on the way from n to what is read back: n in units, as printed in hundredths, as
      parsed, and times the unit again. A whole number of units is printed without a point, which is
      what stripping zeros leaves of its hundredths. */
  ghost predicate Steps(n: nat, base: nat, q: real, h: nat, p: real, t: real)
    requires base > 0
  {
    && IsRounded(n as real / base as real, q) && FixedTwo(q, h)
    && IsRounded(h as real / 100.0, p) && IsRounded(Product(p, base as real), t)
  }

  const QUADRILLION: nat := 1000000000000000

  predicate IsUnit(base: nat) {
    base == 1000 || base == 1000000 || base == 1000000000
  }

  lemma RatioIsBounded(u: real, b: real)
    requires b >= 1000.0 && Product(u, b) <= QUADRILLION as real
    ensures u <= 1000000000000.0
  {
    if u > 1000000000000.0 { ProductIsLarger(1000000000000.0, u, b); }
  }

  lemma HundredthsAreNear(u: real, q: real, h: nat)
    requires u <= 1000000000000.0 && IsClose(u, q) && FixedTwo(q, h)
    ensures -0.6 < h as real - 100.0 * u < 0.6
  {
  }

  /** The value of h hundredths of a unit b is near that of u units. */
  lemma ValueIsNear(v: real, u: real, b: real)
    requires -0.006 < v - u < 0.006 && b > 0.0
    ensures -0.006 * b < Product(v, b) - Product(u, b) < 0.006 * b
  {
    ProductOfDifference(v, u, b);
    ProductIsLarger(-0.006, v - u, b);
    ProductIsLarger(v - u, 0.006, b);
  }

  lemma TwoRoundings(v: real, y: real, t: real)
    requires v < 1100000000000000.0 && IsClose(v, y) && IsClose(y, t)
    ensures -0.5 < t - v < 0.5
  {
  }

  /** What v units of b are read back as is within half a token of their value. */
  lemma ReadsNear(u: real, b: real, v: real, p: real, t: real)
    requires 1000.0 <= b <= 1000000000.0 && Product(u, b) <= QUADRILLION as real
    requires -0.006 < v - u < 0.006
    requires IsClose(v, p) && IsClose(Product(p, b), t)
    ensures -0.5 < t - Product(v, b) < 0.5
  {
    ValueIsNear(v, u, b);
    ScaledIsClose(v, p, b);
    TwoRoundings(Product(v, b), Product(p, b), t);
  }

  lemma RoundIs(t: real, v: int)
    requires -0.5 < t - v as real < 0.5
    ensures Round(t) == v
  {
  }

  lemma ValueOfHundredths(h: nat, c: nat)
    ensures Product(h as real / 100.0, (100 * c) as real) == Times(h, c) as real
  {
    assert (h * c) as real == h as real * c as real;
  }

  lemma SameRatio(u: real, k: nat, c: nat)
    requires c > 0 && Product(u, (100 * c) as real) == Times(k, c) as real
    ensures 100.0 * u == k as real
  {
    ValueOfHundredths(k, c);
    var v, b := k as real / 100.0, (100 * c) as real;
    if u < v { ProductIsLarger(u, v, b); }
    if v < u { ProductIsLarger(v, u, b); }
  }

  lemma WholeIsExact(n: nat, c: nat, u: real, h: nat)
    requires c > 0 && n % c == 0 && Product(u, (100 * c) as real) == n as real && -0.6 < h as real - 100.0 * u < 0.6
    ensures h == n / c
  {
    WholeQuotient(n, c);
    SameRatio(u, n / c, c);
  }

  lemma ExactHundredths(n: nat, c: nat)
    requires c > 0 && n % c == 0
    ensures Hundredths(n, 100 * c) == n / c && Times(n / c, c) == n
  {
    WholeQuotient(n, c);
    HundredthsExactIff(n, c);
    SameFactor(Hundredths(n, 100 * c), n / c, c);
  }

  /** With u for n in units of 100 * c: reading back gives the value of the hundredths, and these are
      those of n if n has no more digits. */
  lemma CloseStepsAreExact(n: nat, c: nat, b: real, u: real, q: real, h: nat, p: real, t: real)
    requires 10 <= c <= 10000000 && n <= QUADRILLION && b == (100 * c) as real && Product(u, b) == n as real
    requires IsClose(u, q) && FixedTwo(q, h) && IsClose(h as real / 100.0, p) && IsClose(Product(p, b), t)
    ensures Round(t) == Times(h, c)
    ensures n % c == 0 ==> h == n / c
  {
    RatioIsBounded(u, b);
    HundredthsAreNear(u, q, h);
    ReadsNear(u, b, h as real / 100.0, p, t);
    ValueOfHundredths(h, c);
    RoundIs(t, Times(h, c));
    if n % c == 0 { WholeIsExact(n, c, u, h); }
  }

  lemma QuotientTimes(n: real, b: real)
    requires b > 0.0
    ensures Product(n / b, b) == n
  {
  }

  lemma StepsAreExact(n: nat, c: nat, q: real, h: nat, p: real, t: real)
    requires 10 <= c <= 10000000 && n <= QUADRILLION && Steps(n, 100 * c, q, h, p, t)
    ensures Round(t) == Times(h, c)
    ensures n % c == 0 ==> h == n / c
  {
    var b := (100 * c) as real;
    var u := n as real / b;
    RoundedIsClose(u, q);
    RoundedIsClose(h as real / 100.0, p);
    RoundedIsClose(Product(p, b), t);
    QuotientTimes(n as real, b);
    CloseStepsAreExact(n, c, b, u, q, h, p, t);
  }

  /** Up to a quadrillion rounding changes nothing: what is printed reads back as the number exactly
      when two decimals of the unit say it precisely, and then they are those of exact arithmetic. */
  lemma ShortFormSurvivesRounding(n: nat, base: nat, q: real, h: nat, p: real, t: real)
    requires IsUnit(base) && base <= n <= QUADRILLION && Steps(n, base, q, h, p, t)
    ensures Round(t) == n <==> 100 * n % base == 0
    ensures 100 * n % base == 0 ==> h == Hundredths(n, base)
  {
    var c := base / 100;
    assert base == 100 * c;
    StepsAreExact(n, c, q, h, p, t);
    HundredMultiple(n, c);
    if n % c == 0 { ExactHundredths(n, c); }
    MultipleHasNoRemainder(h, c);
  }

  // ----- No rounding loses a limit -----

  /** A whole number of tokens is read exactly. */
  lemma DigitsReadExactly(n: nat, p: real, t: real)
    requires 1 <= n <= MAX_SAFE && IsRounded(n as real, p) && IsRounded(Product(p, 1.0), t)
    ensures Round(t) == n
  {
    WholeNumbersStay(n, p);
    WholeNumbersStay(n, t);
  }

  /** So whatever the short form is and however it reads back, the number printed is the number
      kept, as long as digits are read exactly and nothing unsafe is read at all. */
  lemma LosslessWhateverTheRounding(n: nat, candidate: string, parse: string -> Limit)
    requires parse(Numeral(n)) == Safe(n)
    requires forall s :: parse(s).Tokens? ==> 1 <= parse(s).n <= MAX_SAFE
    ensures parse(Lossless(n, candidate, parse)) == Tokens(n) <==> 1 <= n <= MAX_SAFE
  {
  }

  // ----- Where it stops -----

  lemma Pow2Down10(e: int)
    requires e <= 0
    ensures Pow2(e - 10) == Pow2(e) / 1024.0
  {
    assert Pow2(e - 5) == Pow2(e) / 32.0 by {
      assert Pow2(e - 2) == Pow2(e) / 4.0;
      assert Pow2(e - 4) == Pow2(e - 2) / 4.0;
    }
    assert Pow2(e - 7) == Pow2(e - 5) / 4.0;
    assert Pow2(e - 9) == Pow2(e - 7) / 4.0;
  }

  const UNIT: real := 1.0 / 1073741824.0

  lemma SmallUnit()
    ensures Pow2(-30) == UNIT && Pow2(-1) == 0.5
  {
    Pow2Down10(0);
    Pow2Down10(-10);
    Pow2Down10(-20);
  }

  lemma RoundsInSmallUnits(r: real)
    requires IsRounded(4194304.65, r)
    ensures r == Product(4503600325302682.0, UNIT)
  {
    SmallUnit();
    RoundsTo(4194304.65, r, -30, UNIT, 4503600325302682);
  }

  lemma RoundsInHalves(t: real)
    requires IsRounded(Product(Product(4503600325302682.0, UNIT), 1000000000.0), t)
    ensures t == 4194304650000000.5
  {
    SmallUnit();
    RoundsTo(Product(Product(4503600325302682.0, UNIT), 1000000000.0), t, -1, 0.5, 8388609300000001);
  }

  /** A number of tokens that two decimals of a billion say precisely, and that double precision
      reads back as one more; so all its digits are printed. */
  lemma RoundingSpoilsShortForm(q: real, h: nat, p: real, t: real)
    requires Steps(4194304650000000, 1000000000, q, h, p, t)
    ensures 100 * 4194304650000000 % 1000000000 == 0
    ensures h == 419430465 && Round(t) == 4194304650000001
  {
    assert 4194304650000000.0 / 1000000000.0 == 4194304.65;
    RoundsInSmallUnits(q);
    assert h == 419430465;
    assert h as real / 100.0 == 4194304.65;
    RoundsInSmallUnits(p);
    RoundsInHalves(t);
  }
}
