/** Division facts the other modules build on. */
module Arithmetic {

  /** Quotient and remainder are the only pair with a remainder in range. */
  lemma DivModUnique(a: int, d: int, q: int, r: int)
    requires d > 0 && a == q * d + r && 0 <= r < d
    ensures a / d == q && a % d == r
  {
    var q', r' := a / d, a % d;
    assert a == d * q' + r';
    if q != q' {
      NonzeroMultiple(q - q', d);
    }
  }

  /** A nonzero multiple of `d` is at least `d` away from zero. */
  lemma NonzeroMultiple(n: int, d: int)
    requires d > 0 && n != 0
    ensures n * d >= d || n * d <= -d
  {
    if n >= 1 {
      assert n * d >= 1 * d;
    } else {
      assert (-n) * d >= 1 * d;
    }
  }

  /** Division that drops the fraction, for either sign. */
  function Truncated(n: int, d: int): int
    requires d > 0
  {
    if n >= 0 then n / d else -(-n / d)
  }

  /** A truncated quotient gives the number back exactly when the division leaves nothing. */
  lemma TruncationIsExact(n: int, d: int)
    requires d > 0
    ensures n % d == 0 <==> Truncated(n, d) * d == n
  {
    if n >= 0 {
      DivModUnique(n, d, n / d, n % d);
    } else if n % d == 0 {
      DivModUnique(-n, d, -(n / d), 0);
    } else if Truncated(n, d) * d == n {
      DivModUnique(n, d, Truncated(n, d), 0);
    }
  }

  lemma MultipleIsExact(k: int, d: int)
    requires d > 0
    ensures (k * d) % d == 0 && Truncated(k * d, d) == k
  {
    DivModUnique(k * d, d, k, 0);
    DivModUnique(-(k * d), d, -k, 0);
  }

  function Power10(n: nat): (p: nat)
    ensures p > 0
  {
    if n == 0 then 1 else 10 * Power10(n - 1)
  }

  lemma {:induction false} Power10Adds(a: nat, b: nat)
    ensures Power10(a + b) == Power10(a) * Power10(b)
  {
    if a > 0 {
      Power10Adds(a - 1, b);
    }
  }

  /** Above every member of a finite set of numbers. */
  ghost function Above(used: set<nat>): (n: nat)
    ensures n !in used && forall x :: x in used ==> x < n
  {
    if used == {} then 0
    else
      var x :| x in used;
      var rest := Above(used - {x});
      assert forall y :: y in used ==> y == x || y in used - {x};
      if x < rest then rest else x + 1
  }
}
