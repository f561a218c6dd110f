/** Numbers as little-endian sequences of 32-bit limbs. */
module Limbs {
  import opened Numbers
  import opened Bits

  type limb = x: nat | x < WORD

  function Val(s: seq<limb>): nat
  {
    if s == [] then 0 else s[0] + WORD * Val(s[1..])
  }

  lemma LimbPow()
    ensures Pow2(32) == WORD
  {
    assert Pow2(8) == 256;
    PowAdd(2, 8, 8);
    PowAdd(2, 16, 16);
  }

  lemma ShlLimb(x: nat)
    ensures Shl(x, 32) == WORD * x
  {
    hide Shl, Pow;
    ShlIsMul(x, 32);
    LimbPow();
  }

  lemma {:induction false} ValSplit(s: seq<limb>, n: nat)
    requires n <= |s|
    ensures Val(s) == Val(s[..n]) + Shl(Val(s[n..]), 32 * n)
    decreases n
  {
    hide Shl;
    var rest := Val(s[n..]);
    if n == 0 {
      assert s[..0] == [] && s[0..] == s;
      ShlZero(rest);
    } else {
      var t := s[1..];
      ValSplit(t, n - 1);
      assert s[..n][1..] == t[..n - 1] && t[n - 1..] == s[n..];
      ShlShl(rest, 32 * (n - 1), 32);
      ShlLimb(Shl(rest, 32 * (n - 1)));
    }
  }

  lemma ValOne(d: limb)
    ensures Val([d]) == d && Val([]) == 0
  {
  }

  lemma ValAppend(s: seq<limb>, d: limb)
    ensures Val(s + [d]) == Val(s) + Shl(d, 32 * |s|)
  {
    hide Shl, Val;
    var t := s + [d];
    ValSplit(t, |s|);
    assert t[..|s|] == s && t[|s|..] == [d];
    ValOne(d);
  }

  lemma {:induction false} ValBound(s: seq<limb>)
    ensures Val(s) < Pow2(32 * |s|)
  {
    hide Pow;
    if s == [] {
      PowPositive(2, 32 * |s|);
    } else {
      ValBound(s[1..]);
      LimbPow();
      var p := Pow2(32 * |s[1..]|);
      PowAdd(2, 32, 32 * |s[1..]|);
      assert WORD * (Val(s[1..]) + 1) <= WORD * p;
    }
  }

  lemma ValUpdate(s: seq<limb>, m: nat, d: limb)
    requires m < |s|
    ensures Val(s[m := d]) + Shl(s[m], 32 * m) == Val(s) + Shl(d, 32 * m)
  {
    hide Shl, Val;
    var t := s[m := d];
    ValSplit(s, m + 1);
    ValSplit(t, m + 1);
    assert t[m + 1..] == s[m + 1..];
    assert s[..m + 1] == s[..m] + [s[m]] && t[..m + 1] == s[..m] + [d];
    ValAppend(s[..m], s[m]);
    ValAppend(s[..m], d);
  }

  lemma {:induction false} ValZeros(s: seq<limb>)
    ensures Val(s) == 0 <==> forall i :: 0 <= i < |s| ==> s[i] == 0
  {
    if s != [] {
      ValZeros(s[1..]);
      assert forall i :: 0 <= i < |s| - 1 ==> s[1..][i] == s[i + 1];
      if Val(s) == 0 {
        forall i | 0 <= i < |s| ensures s[i] == 0 {
          assert i > 0 ==> s[1..][i - 1] == s[i];
        }
      }
    }
  }

  /** A limb and what is left over, at position n. */
  lemma LimbAt(x: nat, n: nat)
    ensures Shl(x, 32 * n) == Shl(x % WORD, 32 * n) + Shl(x / WORD, 32 * (n + 1))
  {
    hide Shl;
    var lo, hi := x % WORD, x / WORD;
    assert x == lo + WORD * hi;
    ShlAdd(lo, WORD * hi, 32 * n);
    ShlLimb(hi);
    ShlShl(hi, 32, 32 * n);
  }

  /** What remains of a number when a multiple of 2^k above it is dropped. */
  lemma Truncated(v: nat, q: nat, k: nat, total: nat)
    requires v < Pow2(k) && total == v + Shl(q, k)
    ensures Pow2(k) > 0 && total % Pow2(k) == v && total / Pow2(k) == q
  {
    hide Shl, Low, Pow;
    ShlIsMul(q, k);
    PowPositive(2, k);
    DivModUnique(total, Pow2(k), q, v);
  }

  lemma {:induction false} ShlMul(x: nat, y: nat, k: nat)
    ensures Shl(x * y, k) == x * Shl(y, k)
  {
    if k > 0 {
      ShlMul(x, y, k - 1);
      var z := Shl(y, k - 1);
      assert x * (2 * z) == 2 * (x * z);
    }
  }

  /** The limb that holds a number's bits from 32 m on. */
  lemma LimbIs(s: seq<limb>, m: nat)
    requires m < |s|
    ensures s[m] == Low(Shr(Val(s), 32 * m), 32)
    ensures Val(s[..m]) == Low(Val(s), 32 * m)
  {
    hide Shl, Shr, Low, Val, Pow;
    ValSplit(s, m);
    ValBound(s[..m]);
    ShrLowOfShl(Val(s[m..]), 32 * m, Val(s[..m]));
    var t := s[m..];
    ValSplit(t, 1);
    assert t[..1] == [s[m]];
    ValOne(s[m]);
    LimbPow();
    ShrLowOfShl(Val(t[1..]), 32, s[m]);
  }

  /** A limb shifted left by up to a whole limb: the part that stays and the part that spills. */
  lemma LimbShift(x: limb, s: nat)
    requires s <= 32
    ensures Shl(x, s) % WORD == Shl(Low(x, 32 - s), s)
    ensures Shl(x, s) / WORD == Shr(x, 32 - s) < Pow2(s)
  {
    hide Shl, Shr, Low, Pow;
    var hi, lo := Shr(x, 32 - s), Low(x, 32 - s);
    LowShr(x, 32 - s);
    ShlAdd(Shl(hi, 32 - s), lo, s);
    ShlShl(hi, 32 - s, s);
    ShlLimb(hi);
    ShlLess(lo, 32 - s, s);
    LimbPow();
    DivModUnique(Shl(x, s), WORD, hi, Shl(lo, s));
    SpillBound(x, s);
  }

  lemma SpillBound(x: limb, s: nat)
    requires s <= 32
    ensures Shr(x, 32 - s) < Pow2(s)
  {
    hide Shl, Shr, Low, Pow;
    var hi := Shr(x, 32 - s);
    LowShr(x, 32 - s);
    LimbPow();
    if hi >= Pow2(s) {
      ShlMonotone(Pow2(s), hi, 32 - s);
      ShlPow(s, 32 - s);
    }
  }

  function OrLimb(x: limb, y: limb): limb
  {
    LimbPow();
    OrBound(x, y, 32);
    Or(x, y)
  }

  function ShrLimb(x: limb, s: nat): limb
  {
    ShrBound(x, s);
    Shr(x, s)
  }
}
