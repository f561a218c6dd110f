/**
Powers and the few facts about division that the rest of the project needs.
Every lemma is about arbitrary integers; nothing here is specific to one component.
*/
module Numbers {

  const WORD: nat := 0x1_0000_0000
  const TWO64: nat := 0x1_0000_0000_0000_0000
  const INT_MAX: int := 0x7FFF_FFFF

  function Pow(b: nat, e: nat): nat
  {
    if e == 0 then 1 else b * Pow(b, e - 1)
  }

  function Pow2(e: nat): nat
  {
    Pow(2, e)
  }

  lemma PowZero(b: nat)
    ensures Pow(b, 0) == 1
  {
  }

  lemma {:induction false} PowPositive(b: nat, e: nat)
    requires b > 0
    ensures Pow(b, e) > 0
  {
    if e > 0 {
      PowPositive(b, e - 1);
    }
  }

  lemma {:induction false} PowAdd(b: nat, m: nat, n: nat)
    ensures Pow(b, m + n) == Pow(b, m) * Pow(b, n)
  {
    if m > 0 {
      PowAdd(b, m - 1, n);
      MulAssoc(b, Pow(b, m - 1), Pow(b, n));
    }
  }

  lemma {:induction false} PowMul(b: nat, m: nat, n: nat)
    ensures Pow(Pow(b, m), n) == Pow(b, m * n)
  {
    if n > 0 {
      PowMul(b, m, n - 1);
      PowAdd(b, m, m * (n - 1));
      assert m + m * (n - 1) == m * n;
    } else {
      assert m * n == 0;
    }
  }

  lemma {:induction false} PowMonotone(b: nat, m: nat, n: nat)
    requires b > 0 && m <= n
    ensures Pow(b, m) <= Pow(b, n)
  {
    PowAdd(b, m, n - m);
    PowPositive(b, n - m);
    MulMonotone(1, Pow(b, n - m), Pow(b, m));
  }

  lemma MulAssoc(x: int, y: int, z: int)
    ensures x * y * z == x * (y * z)
  {
  }

  lemma Distributes(x: int, y: int, z: int)
    ensures x * (y + z) == x * y + x * z
  {
  }

  lemma MulStep(x: int, n: int)
    ensures x * n == x + x * (n - 1) && n * x == x + (n - 1) * x
  {
  }

  lemma MulMonotone(x: int, y: int, z: nat)
    requires x <= y
    ensures x * z <= y * z && z * x <= z * y
  {
  }

  /** Quotient and remainder are determined by the division equation. */
  lemma DivModUnique(x: int, d: int, q: int, r: int)
    requires d > 0 && 0 <= r < d && x == q * d + r
    ensures x / d == q && x % d == r
  {
    var q', r' := x / d, x % d;
    assert (q - q') * d == r' - r;
    if q > q' {
      MulMonotone(1, q - q', d);
    } else if q < q' {
      MulMonotone(q - q', -1, d);
    }
  }

  lemma DivModEquation(x: int, d: int)
    requires d > 0
    ensures x == x / d * d + x % d && 0 <= x % d < d
  {
  }

  lemma DivNonNegative(x: nat, d: int)
    requires d > 0
    ensures 0 <= x / d <= x
  {
    var q := x / d;
    DivModEquation(x, d);
    if q < 0 {
      MulMonotone(q, -1, d);
    } else {
      MulMonotone(1, d, q);
    }
  }

  lemma DivAtLeast(x: int, d: int, q: int)
    requires d > 0 && q * d <= x
    ensures q <= x / d
  {
    DivModEquation(x, d);
    if q > x / d {
      MulMonotone(x / d + 1, q, d);
    }
  }

  lemma DivModSmall(x: nat, d: nat)
    requires x < d
    ensures x / d == 0 && x % d == x
  {
    DivModUnique(x, d, 0, x);
  }

  /** The product k * n, by repeated addition: `n` items of `k` units each. */
  function Span(k: nat, n: nat): nat
    decreases n
  {
    if n == 0 then 0 else k + Span(k, n - 1)
  }

  lemma {:induction false} SpanIsMul(k: nat, n: nat)
    ensures Span(k, n) == k * n
    decreases n
  {
    if n > 0 {
      SpanIsMul(k, n - 1);
      MulStep(k, n);
    }
  }

  lemma {:induction false} SpanMonotone(k: nat, m: nat, n: nat)
    requires m <= n
    ensures Span(k, m) <= Span(k, n)
    decreases n - m
  {
    if m < n {
      SpanMonotone(k, m, n - 1);
    }
  }

  /** Digits of base b. */
  predicate Proper(b: nat, ds: seq<nat>)
  {
    forall i :: 0 <= i < |ds| ==> ds[i] < b
  }
}
