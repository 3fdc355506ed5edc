/** Products, quotients and remainders of natural numbers. */
module Arithmetic {
  function Times(a: nat, b: nat): nat {
    a * b
  }

  function FloorDiv(a: nat, b: nat): nat
    requires b > 0
  {
    a / b
  }

  lemma MultipleIsLarge(k: int, b: int)
    requires b > 0
    ensures k != 0 ==> k * b >= b || k * b <= -b
  {
  }

  lemma QuotientIs(a: nat, b: nat, q: nat, r: nat)
    requires r < b && a == q * b + r
    ensures FloorDiv(a, b) == q
  {
    var x := a / b;
    assert a == x * b + a % b;
    assert (x - q) * b == x * b - q * b;
    MultipleIsLarge(x - q, b);
  }

  lemma RemainderIs(a: nat, b: nat, q: nat, r: nat)
    requires r < b && a == q * b + r
    ensures a % b == r
  {
    QuotientIs(a, b, q, r);
    assert a == a / b * b + a % b;
  }

  /** Taking away the divisor once leaves the remainder. */
  lemma RemainderStays(x: nat, n: nat)
    requires n > 0 && x >= n
    ensures x % n == (x - n) % n
  {
    var q, r := (x - n) / n, (x - n) % n;
    assert x - n == q * n + r;
    assert x == (q + 1) * n + r;
    RemainderIs(x, n, q + 1, r);
  }

  lemma {:induction false} RemainderOfSum(a: nat, i: nat, n: nat)
    requires n > 0
    ensures (a % n + i) % n == (a + i) % n
  {
    if a >= n {
      RemainderOfSum(a - n, i, n);
      RemainderStays(a, n);
      RemainderStays(a + i, n);
    } else {
      SmallRemainder(a, n);
    }
  }

  lemma SmallRemainder(a: nat, n: nat)
    requires a < n
    ensures a % n == a
  {
    RemainderIs(a, n, 0, a);
  }
}
