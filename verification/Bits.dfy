/**
Bitwise operations on naturals, written digit by digit in base two, and the
arithmetic they stand for when one operand is a mask or the operands are disjoint.
*/
module Bits {
  import opened Numbers

  type byte = x: int | 0 <= x < 256

  function And(x: nat, y: nat): nat
    decreases x + y
  {
    if x == 0 || y == 0 then 0
    else 2 * And(x / 2, y / 2) + (if x % 2 == 1 && y % 2 == 1 then 1 else 0)
  }

  function Or(x: nat, y: nat): nat
    decreases x + y
  {
    if x == 0 && y == 0 then 0
    else 2 * Or(x / 2, y / 2) + (if x % 2 == 1 || y % 2 == 1 then 1 else 0)
  }

  function Xor(x: nat, y: nat): nat
    decreases x + y
  {
    if x == 0 && y == 0 then 0
    else 2 * Xor(x / 2, y / 2) + (if x % 2 != y % 2 then 1 else 0)
  }

  function Shl(x: nat, k: nat): nat
    decreases k, x
  {
    if k == 0 then x else 2 * Shl(x, k - 1)
  }

  function Shr(x: nat, k: nat): nat
    decreases k, x
  {
    if k == 0 then x else Shr(x / 2, k - 1)
  }

  /** The `k` low-order bits. */
  function Low(x: nat, k: nat): nat
    decreases k, x
  {
    if k == 0 then 0 else 2 * Low(x / 2, k - 1) + x % 2
  }

  // ---------------------------------------------------------------- shifts

  lemma {:induction false} ShlIsMul(x: nat, k: nat)
    ensures Shl(x, k) == x * Pow2(k)
  {
    if k > 0 {
      ShlIsMul(x, k - 1);
    }
  }

  /** Low and Shr are remainder and quotient by 2^k. */
  lemma {:induction false} LowShr(x: nat, k: nat)
    ensures x == Shl(Shr(x, k), k) + Low(x, k)
    ensures Low(x, k) < Pow2(k)
  {
    if k > 0 {
      LowShr(x / 2, k - 1);
    }
  }

  lemma ShrIsDiv(x: nat, k: nat)
    ensures Pow2(k) > 0 && Shr(x, k) == x / Pow2(k) && Low(x, k) == x % Pow2(k)
  {
    LowShr(x, k);
    ShlIsMul(Shr(x, k), k);
    DivModUnique(x, Pow2(k), Shr(x, k), Low(x, k));
  }

  lemma {:induction false} LowSmall(x: nat, k: nat)
    requires x < Pow2(k)
    ensures Low(x, k) == x && Shr(x, k) == 0
  {
    if k > 0 {
      LowSmall(x / 2, k - 1);
    }
  }

  lemma {:induction false} ShrShr(x: nat, a: nat, b: nat)
    ensures Shr(Shr(x, a), b) == Shr(x, a + b)
    decreases a
  {
    if a > 0 {
      ShrShr(x / 2, a - 1, b);
    }
  }

  lemma {:induction false} ShlShl(x: nat, a: nat, b: nat)
    ensures Shl(Shl(x, a), b) == Shl(x, a + b)
    decreases b
  {
    if b > 0 {
      ShlShl(x, a, b - 1);
    }
  }

  lemma ShlZero(x: nat)
    ensures Shl(x, 0) == x
  {
  }

  lemma {:induction false} ShlOfZero(k: nat)
    ensures Shl(0, k) == 0
  {
    if k > 0 {
      ShlOfZero(k - 1);
    }
  }

  lemma {:induction false} ShlAdd(x: nat, y: nat, k: nat)
    ensures Shl(x + y, k) == Shl(x, k) + Shl(y, k)
    decreases k
  {
    if k > 0 {
      ShlAdd(x, y, k - 1);
    }
  }

  lemma {:induction false} ShrLow(x: nat, a: nat, b: nat)
    ensures Shr(Low(x, a + b), a) == Low(Shr(x, a), b)
    decreases a
  {
    if a > 0 {
      ShrLow(x / 2, a - 1, b);
    }
  }

  lemma {:induction false} LowLow(x: nat, a: nat, b: nat)
    ensures Low(Low(x, a), b) == Low(x, if a < b then a else b)
    decreases a
  {
    if a == 0 {
      PowPositive(2, b);
      LowSmall(0, b);
    } else if b > 0 {
      LowLow(x / 2, a - 1, b - 1);
      assert Low(x, a) / 2 == Low(x / 2, a - 1) && Low(x, a) % 2 == x % 2;
    }
  }

  /** The low `a + b` bits are the `b` bits above position `a` followed by the low `a` bits. */
  lemma {:induction false} LowSplit(x: nat, a: nat, b: nat)
    ensures Low(x, a + b) == Shl(Low(Shr(x, a), b), a) + Low(x, a)
    decreases a
  {
    if a > 0 {
      LowSplit(x / 2, a - 1, b);
    }
  }

  lemma {:induction false} ShrLowOfShl(x: nat, k: nat, y: nat)
    requires y < Pow2(k)
    ensures Shr(Shl(x, k) + y, k) == x && Low(Shl(x, k) + y, k) == y
    decreases k
  {
    if k > 0 {
      ShrLowOfShl(x, k - 1, y / 2);
      assert (Shl(x, k) + y) / 2 == Shl(x, k - 1) + y / 2;
    }
  }

  lemma LowOfShl(x: nat, a: nat, b: nat)
    ensures Low(Shl(x, a), a + b) == Shl(Low(x, b), a)
  {
    PowPositive(2, a);
    LowSplit(Shl(x, a), a, b);
    ShrLowOfShl(x, a, 0);
  }

  lemma {:induction false} ShlMonotone(x: nat, y: nat, k: nat)
    requires x <= y
    ensures Shl(x, k) <= Shl(y, k)
    decreases k
  {
    if k > 0 {
      ShlMonotone(x, y, k - 1);
    }
  }

  lemma {:induction false} ShlPow(a: nat, k: nat)
    ensures Shl(Pow2(a), k) == Pow2(a + k)
    decreases k
  {
    if k > 0 {
      ShlPow(a, k - 1);
    }
  }

  // ---------------------------------------------------------------- masks and or

  /** The mask 2^n - 1 shifted right is a shorter mask. */
  lemma {:induction false} ShiftedMask(n: nat, s: nat)
    requires s <= n
    ensures Pow2(n) > 0 && Pow2(n - s) > 0 && Shr(Pow2(n) - 1, s) == Pow2(n - s) - 1
    decreases s
  {
    PowPositive(2, n);
    PowPositive(2, n - s);
    if s > 0 {
      ShiftedMask(n - 1, s - 1);
    }
  }

  /** Masking with 2^k - 1 keeps the low k bits. */
  lemma {:induction false} AndMask(x: nat, k: nat)
    ensures Pow2(k) > 0 && And(x, Pow2(k) - 1) == Low(x, k)
    decreases k
  {
    PowPositive(2, k);
    if x == 0 {
      LowSmall(x, k);
    } else if k > 0 {
      AndMask(x / 2, k - 1);
    }
  }

  /** Or-ing a number below 2^k into a multiple of 2^k is adding it. */
  lemma {:induction false} OrDisjoint(x: nat, y: nat, k: nat)
    requires y < Pow2(k)
    ensures Or(Shl(x, k), y) == Shl(x, k) + y
    decreases k
  {
    if k == 0 {
      OrZero(x);
    } else {
      OrDisjoint(x, y / 2, k - 1);
    }
  }

  lemma {:induction false} OrZero(x: nat)
    ensures Or(x, 0) == x
  {
    if x > 0 {
      OrZero(x / 2);
    }
  }

  lemma {:induction false} OrCommutes(x: nat, y: nat)
    ensures Or(x, y) == Or(y, x)
    decreases x + y
  {
    if x > 0 || y > 0 {
      OrCommutes(x / 2, y / 2);
    }
  }

  lemma {:induction false} XorBound(x: nat, y: nat, k: nat)
    requires x < Pow2(k) && y < Pow2(k)
    ensures Xor(x, y) < Pow2(k)
  {
    if k > 0 {
      XorBound(x / 2, y / 2, k - 1);
    }
  }

  lemma {:induction false} XorCommutes(x: nat, y: nat)
    ensures Xor(x, y) == Xor(y, x)
    decreases x + y
  {
    if x > 0 || y > 0 {
      XorCommutes(x / 2, y / 2);
    }
  }

  lemma {:induction false} XorAssociates(x: nat, y: nat, z: nat)
    ensures Xor(Xor(x, y), z) == Xor(x, Xor(y, z))
    decreases x + y + z
  {
    if x > 0 || y > 0 || z > 0 {
      XorAssociates(x / 2, y / 2, z / 2);
      XorHalves(x, y);
      XorHalves(y, z);
      XorHalves(Xor(x, y), z);
      XorHalves(x, Xor(y, z));
    }
  }

  lemma XorHalves(x: nat, y: nat)
    ensures Xor(x, y) / 2 == Xor(x / 2, y / 2)
    ensures Xor(x, y) % 2 == if x % 2 != y % 2 then 1 else 0
  {
  }

  lemma {:induction false} XorZero(x: nat)
    ensures Xor(x, 0) == x
  {
    if x > 0 {
      XorZero(x / 2);
    }
  }

  /** Two numbers xor to zero exactly when they are equal. */
  lemma {:induction false} XorCancels(x: nat, y: nat)
    ensures Xor(x, y) == 0 <==> x == y
    decreases x + y
  {
    if x > 0 || y > 0 {
      XorCancels(x / 2, y / 2);
    }
  }

  function XorByte(x: byte, y: byte): byte
  {
    assert Pow2(8) == 256;
    XorBound(x, y, 8);
    Xor(x, y)
  }

  function XorBytes(a: seq<byte>, b: seq<byte>): (r: seq<byte>)
    requires |a| == |b|
    ensures |r| == |a|
  {
    seq(|a|, i requires 0 <= i < |a| => XorByte(a[i], b[i]))
  }

  lemma {:induction false} OrBound(x: nat, y: nat, k: nat)
    requires x < Pow2(k) && y < Pow2(k)
    ensures Or(x, y) < Pow2(k)
  {
    if k > 0 {
      OrBound(x / 2, y / 2, k - 1);
    }
  }

  lemma {:induction false} ShlLess(x: nat, a: nat, k: nat)
    requires x < Pow2(a)
    ensures Shl(x, k) < Pow2(a + k)
    decreases k
  {
    if k > 0 {
      ShlLess(x, a, k - 1);
    }
  }

  lemma {:induction false} ShrAddShl(v: nat, y: nat, n: nat, s: nat)
    requires s <= n
    ensures Shr(v + Shl(y, n), s) == Shr(v, s) + Shl(y, n - s)
    decreases s
  {
    if s > 0 {
      assert (v + Shl(y, n)) / 2 == v / 2 + Shl(y, n - 1);
      ShrAddShl(v / 2, y, n - 1, s - 1);
    }
  }

  lemma {:induction false} ShrBound(x: nat, s: nat)
    ensures Shr(x, s) <= x
    decreases s
  {
    if s > 0 {
      ShrBound(x / 2, s - 1);
    }
  }

  // ---------------------------------------------------------------- single bits

  /** Bit p of n. */
  predicate BitOf(n: nat, p: nat)
    decreases p
  {
    if p == 0 then n % 2 == 1 else BitOf(n / 2, p - 1)
  }

  lemma {:induction false} AndBit(n: nat, p: nat)
    ensures And(n, Shl(1, p)) != 0 <==> BitOf(n, p)
    decreases p
  {
    if n == 0 {
      ZeroBit(p);
    } else if p > 0 {
      AndBit(n / 2, p - 1);
    } else {
      AndZero(n / 2);
    }
  }

  lemma {:induction false} ZeroBit(p: nat)
    ensures !BitOf(0, p)
  {
    if p > 0 {
      ZeroBit(p - 1);
    }
  }

  lemma AndZero(n: nat)
    ensures And(n, 0) == 0
  {
  }

  /** The top bit of a number of k + 1 bits. */
  lemma {:induction false} TopBit(d: nat, k: nat)
    requires d < Pow2(k + 1)
    ensures And(d, Pow2(k)) != 0 <==> d >= Pow2(k)
    decreases k
  {
    assert Pow2(k + 1) == 2 * Pow2(k);
    if d > 0 && k > 0 {
      TopBit(d / 2, k - 1);
    }
  }
}
