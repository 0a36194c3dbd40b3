/**
 Products and quotients by recursion, so that proofs about quotas need no non-linear reasoning.
 `ScaleIsProduct` and `CeilQuotientIsCeiling` tie them to the operators they stand for.
 */
module Arithmetic {

  /** `n * unit`. */
  function Scale(n: nat, unit: nat): nat {
    if n == 0 then 0 else Scale(n - 1, unit) + unit
  }

  /** `x / unit`, rounded down. */
  function Quotient(x: nat, unit: nat): nat
    requires 0 < unit
  {
    if x < unit then 0 else Quotient(x - unit, unit) + 1
  }

  /** `x / unit`, rounded up. */
  function CeilQuotient(x: nat, unit: nat): nat
    requires 0 < unit
  {
    if x == 0 then 0 else if x <= unit then 1 else CeilQuotient(x - unit, unit) + 1
  }

  lemma {:induction false} ScaleIsProduct(n: nat, unit: nat)
    ensures Scale(n, unit) == n * unit
  {
    if n != 0 {
      ScaleIsProduct(n - 1, unit);
      assert n * unit == (n - 1) * unit + unit;
    }
  }

  lemma {:induction false} ScaleMonotone(m: nat, n: nat, unit: nat)
    requires m <= n
    ensures Scale(m, unit) <= Scale(n, unit)
  {
    if m < n {
      ScaleMonotone(m, n - 1, unit);
    }
  }

  lemma {:induction false} ScaleMonotoneUnit(n: nat, u: nat, v: nat)
    requires u <= v
    ensures Scale(n, u) <= Scale(n, v)
  {
    if n != 0 {
      ScaleMonotoneUnit(n - 1, u, v);
    }
  }

  lemma {:induction false} ScaleSum(m: nat, n: nat, unit: nat)
    ensures Scale(m + n, unit) == Scale(m, unit) + Scale(n, unit)
  {
    if n != 0 {
      ScaleSum(m, n - 1, unit);
    }
  }

  lemma {:induction false} ScaleSplit(n: nat, u: nat, v: nat)
    ensures Scale(n, u + v) == Scale(n, u) + Scale(n, v)
  {
    if n != 0 {
      ScaleSplit(n - 1, u, v);
    }
  }

  lemma ScaleStrict(m: nat, n: nat, unit: nat)
    requires 0 < unit
    ensures Scale(m, unit) < Scale(n, unit) <==> m < n
  {
    if m < n {
      ScaleMonotone(m, n - 1, unit);
    } else {
      ScaleMonotone(n, m, unit);
    }
  }

  lemma {:induction false} QuotientBounds(x: nat, unit: nat)
    requires 0 < unit
    ensures Scale(Quotient(x, unit), unit) <= x < Scale(Quotient(x, unit), unit) + unit
  {
    if x >= unit {
      QuotientBounds(x - unit, unit);
    }
  }

  lemma {:induction false} CeilQuotientBounds(x: nat, unit: nat)
    requires 0 < unit
    ensures x <= Scale(CeilQuotient(x, unit), unit) < x + unit
  {
    if x > unit {
      CeilQuotientBounds(x - unit, unit);
    } else if x > 0 {
      assert Scale(1, unit) == unit;
    }
  }

  /** Rounding up is the least number of units that covers `x`. */
  lemma CeilQuotientIsCeiling(x: nat, unit: nat, n: nat)
    requires 0 < unit
    ensures CeilQuotient(x, unit) <= n <==> x <= Scale(n, unit)
  {
    CeilQuotientBounds(x, unit);
    if CeilQuotient(x, unit) <= n {
      ScaleMonotone(CeilQuotient(x, unit), n, unit);
    } else {
      ScaleMonotone(n, CeilQuotient(x, unit) - 1, unit);
    }
  }

  lemma CeilQuotientMonotone(x: nat, y: nat, unit: nat)
    requires x <= y && 0 < unit
    ensures CeilQuotient(x, unit) <= CeilQuotient(y, unit)
  {
    CeilQuotientBounds(y, unit);
    CeilQuotientIsCeiling(x, unit, CeilQuotient(y, unit));
  }

  // ---------------------------------------------------------------- remainders

  lemma MulAtLeast(n: nat, a: nat)
    requires 1 <= a
    ensures n * a >= n
  {
    assert n * a == n * (a - 1) + n;
  }

  /** A multiple of `n` strictly between `-n` and `n` is zero. */
  lemma OnlyZeroBetween(n: int, d: int, m: int)
    requires 0 < n && -n < m < n && m == n * d
    ensures d == 0
  {
    assert n * -d == -(n * d);
    if 1 <= d {
      MulAtLeast(n, d);
    } else if d <= -1 {
      MulAtLeast(n, -d);
    }
  }

  lemma MulMinus(n: int, a: int, b: int)
    ensures n * (a - b) == n * a - n * b
  {
  }

  lemma Division(x: int, n: nat)
    requires 0 < n
    ensures x == n * (x / n) + x % n && 0 <= x % n < n
  {
  }

  lemma RemainderIs(x: int, q: int, r: nat, n: nat)
    requires r < n && x == n * q + r
    ensures x % n == r
  {
    Division(x, n);
    var p, t := x / n, x % n;
    MulMinus(n, p, q);
    OnlyZeroBetween(n, p - q, r - t);
  }

  lemma SameRemainder(x: nat, y: nat, n: nat)
    requires 0 < n && x < y && x % n == y % n
    ensures n <= y - x
  {
    Division(x, n);
    Division(y, n);
    MulMinus(n, y / n, x / n);
    if y - x < n {
      OnlyZeroBetween(n, y / n - x / n, y - x);
    }
  }

  lemma WholeTurns(x: nat, turn: nat, n: nat)
    requires 0 < n && turn % n == 0 && turn <= x
    ensures (x - turn) % n == x % n
  {
    Division(x, n);
    Division(turn, n);
    MulMinus(n, x / n, turn / n);
    RemainderIs(x - turn, x / n - turn / n, x % n, n);
  }

  lemma StepBack(x: nat, d: nat, n: nat)
    requires 0 < n && d <= x % n
    ensures (x - d) % n == x % n - d
  {
    Division(x, n);
    RemainderIs(x - d, x / n, x % n - d, n);
  }

  lemma FullTurnNext(x: nat, n: nat)
    requires 0 < n && x % n == n - 1
    ensures (x + 1) % n == 0
  {
    Division(x, n);
    MulMinus(n, x / n, -1);
    RemainderIs(x + 1, x / n + 1, 0, n);
  }
}
