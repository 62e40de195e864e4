/** Notions used throughout: minima, powers, decimal text. */
module Basics {
  import opened Unicode

  function Min(a: int, b: int): int { if a <= b then a else b }
  function Max(a: int, b: int): int { if a >= b then a else b }

  function Pow2(n: nat): nat { if n == 0 then 1 else 2 * Pow2(n - 1) }
  function Pow10(n: nat): nat { if n == 0 then 1 else 10 * Pow10(n - 1) }

  predicate NoRepeats<T(==)>(s: seq<T>) {
    forall i, j :: 0 <= i < j < |s| ==> s[i] != s[j]
  }

  const ZERO: Octet := 48
  const NINE: Octet := 57

  /** "%i" of a number that is not negative. */
  function Decimal(n: nat): (r: seq<Octet>)
    ensures |r| >= 1
    ensures forall i :: 0 <= i < |r| ==> ZERO <= r[i] <= NINE
  {
    if n < 10 then [ZERO + n] else Decimal(n / 10) + [ZERO + n % 10]
  }

  lemma {:induction false} DecimalIsShort(n: nat, k: nat)
    requires k >= 1 && n < Pow10(k)
    ensures |Decimal(n)| <= k
  {
    if n >= 10 {
      DecimalIsShort(n / 10, k - 1);
    }
  }

  lemma TenDigits()
    ensures Pow10(5) == 100_000 && Pow10(10) == 10_000_000_000
  {
    assert Pow10(8) == 100_000_000;
  }

  lemma ZeroText()
    ensures Decimal(0) == [ZERO]
  {
  }
}
