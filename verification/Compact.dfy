/**
The compact format of difficulty targets: a base-256 exponent, a sign bit and a 23-bit
mantissa in one 32-bit number.
*/
module Compact {
  import opened Numbers
  import opened Bits
  import opened Limbs
  import opened ArithUint

  // ---------------------------------------------------------------- what the format means

  function SizeOf(n: nat): nat
  {
    n / 0x100_0000
  }

  function SignOf(n: nat): bool
  {
    n / 0x80_0000 % 2 == 1
  }

  function MantissaOf(n: nat): nat
  {
    n % 0x80_0000
  }

  /** The mantissa without the bytes that an exponent below three cuts off. */
  function WordOf(n: nat): nat
  {
    if SizeOf(n) <= 3 then Shr(MantissaOf(n), 8 * (3 - SizeOf(n))) else MantissaOf(n)
  }

  /** The whole number that a compact number stands for. */
  function Meaning(n: nat): nat
  {
    if SizeOf(n) <= 3 then WordOf(n) else Shl(WordOf(n), 8 * (SizeOf(n) - 3))
  }

  // ---------------------------------------------------------------- the compact form of a number

  ghost function ByteLength(x: nat): nat
  {
    (BitLength(x) + 7) / 8
  }

  /** The three most significant bytes. */
  ghost function TopBytes(x: nat): nat
  {
    var s := ByteLength(x);
    if s <= 3 then Shl(x, 8 * (3 - s)) else Shr(x, 8 * (s - 3))
  }

  /** The exponent, one more than the length when the top bit would be taken for the sign. */
  ghost function Exponent(x: nat): nat
  {
    ByteLength(x) + if TopBytes(x) >= 0x80_0000 then 1 else 0
  }

  ghost function Mantissa(x: nat): nat
  {
    if TopBytes(x) >= 0x80_0000 then Shr(TopBytes(x), 8) else TopBytes(x)
  }

  ghost function Pack(size: nat, mantissa: nat, negative: bool): nat
  {
    size * 0x100_0000 + mantissa + if negative && mantissa != 0 then 0x80_0000 else 0
  }

  ghost function CompactOf(x: nat, negative: bool): nat
  {
    Pack(Exponent(x), Mantissa(x), negative)
  }

  lemma Unpack(size: nat, mantissa: nat, negative: bool)
    requires mantissa < 0x80_0000
    ensures var n := Pack(size, mantissa, negative);
      SizeOf(n) == size && MantissaOf(n) == mantissa && (SignOf(n) <==> negative && mantissa != 0)
  {
  }

  /** How many low bits the compact form drops: whole bytes. */
  ghost function Dropped(x: nat): nat
  {
    if Exponent(x) <= 3 then 0 else 8 * (Exponent(x) - 3)
  }

  /** The number without them. */
  ghost function Cleared(x: nat): nat
  {
    Shl(Shr(x, Dropped(x)), Dropped(x))
  }

  lemma Pow24()
    ensures Pow2(8) == 256 && Pow2(15) == 0x8000 && Pow2(16) == 0x1_0000
    ensures Pow2(23) == 0x80_0000 && Pow2(24) == 0x100_0000
  {
    assert Pow2(8) == 256;
    PowAdd(2, 8, 8);
    PowAdd(2, 8, 7);
    PowAdd(2, 16, 8);
    PowAdd(2, 16, 7);
  }

  lemma ShrLess(x: nat, a: nat, k: nat)
    requires x < Pow2(a + k)
    ensures Shr(x, k) < Pow2(a)
  {
    hide Shl, Shr, Low, Pow;
    LowShr(x, k);
    if Shr(x, k) >= Pow2(a) {
      ShlMonotone(Pow2(a), Shr(x, k), k);
      ShlPow(a, k);
    }
  }

  lemma ShrAtLeast(x: nat, a: nat, k: nat)
    requires x >= Pow2(a + k)
    ensures Shr(x, k) >= Pow2(a)
  {
    hide Shl, Shr, Low, Pow;
    LowShr(x, k);
    if Shr(x, k) < Pow2(a) {
      ShlMonotone(Shr(x, k) + 1, Pow2(a), k);
      ShlAdd(Shr(x, k), 1, k);
      ShlPow(a, k);
      ShlPow(0, k);
      PowZero(2);
    }
  }

  lemma TopBytesFit(x: nat)
    ensures TopBytes(x) < 0x100_0000
    ensures ByteLength(x) > 3 ==> TopBytes(x) >= 0x1_0000
  {
    hide Shl, Shr, Pow, BitLength;
    var n, s := BitLength(x), ByteLength(x);
    BitLengthBounds(x);
    Pow24();
    PowMonotone(2, n, 8 * s);
    if s <= 3 {
      ShlLess(x, 8 * s, 8 * (3 - s));
    } else {
      ShrLess(x, 24, 8 * (s - 3));
      LengthDecides(0, x);
      PowMonotone(2, 8 * (s - 3) + 16, n - 1);
      ShrAtLeast(x, 16, 8 * (s - 3));
    }
  }

  lemma ShrOfShl(x: nat, a: nat, b: nat)
    requires b <= a
    ensures Shr(Shl(x, a), b) == Shl(x, a - b)
  {
    hide Shl, Shr, Low, Pow;
    ShlShl(x, a - b, b);
    PowPositive(2, b);
    ShrLowOfShl(Shl(x, a - b), b, 0);
  }

  /** The mantissa is the number shifted to exactly three bytes, counted by the exponent. */
  lemma MantissaIs(x: nat)
    ensures Mantissa(x) < 0x80_0000
    ensures Mantissa(x) == if Exponent(x) <= 3 then Shl(x, 8 * (3 - Exponent(x))) else Shr(x, 8 * (Exponent(x) - 3))
    ensures Exponent(x) > 3 ==> Mantissa(x) >= 0x8000
  {
    hide Shl, Shr, Pow, BitLength;
    var s, t := ByteLength(x), TopBytes(x);
    TopBytesFit(x);
    if t >= 0x80_0000 {
      Pow24();
      ShrLess(t, 16, 8);
      ShrAtLeast(t, 15, 8);
      if s < 3 {
        ShrOfShl(x, 8 * (3 - s), 8);
      } else if s == 3 {
        ShlZero(x);
      } else {
        ShrShr(x, 8 * (s - 3), 8);
      }
    }
  }

  lemma ClearedParts(x: nat)
    ensures x == Cleared(x) + Low(x, Dropped(x)) && Low(x, Dropped(x)) < Pow2(Dropped(x))
  {
    LowShr(x, Dropped(x));
  }

  /** Reading the compact form gives the number with only whole low bytes cleared, and at most 2^-15 of it is lost. */
  lemma CompactRoundTrip(x: nat, negative: bool)
    ensures var n := CompactOf(x, negative);
      && Meaning(n) == Cleared(x) <= x
      && Dropped(x) % 8 == 0
      && Shl(x - Cleared(x), 15) <= x
      && (SignOf(n) && WordOf(n) != 0 <==> negative && x != 0)
  {
    hide Shl, Shr, Low, Pow, BitLength, Mantissa, Exponent, Pack;
    var n, e, m, k := CompactOf(x, negative), Exponent(x), Mantissa(x), Dropped(x);
    MantissaIs(x);
    Unpack(e, m, negative);
    ClearedParts(x);
    if e <= 3 {
      ShrOfShl(x, 8 * (3 - e), 8 * (3 - e));
      ShlZero(x);
      ShrZero(x);
      ShlOfZero(8 * (3 - e));
      ShrNothing(8 * (3 - e));
      ShlOfZero(15);
    } else {
      Pow24();
      var lost := Low(x, k);
      ShlLess(lost, k, 15);
      ShlMonotone(Pow2(15), m, k);
      ShlPow(15, k);
      ShrNothing(k);
    }
  }

  lemma ShrZero(x: nat)
    ensures Shr(x, 0) == x
  {
  }

  lemma ClearedLength(x: nat, k: nat)
    requires k < BitLength(x)
    ensures BitLength(Shl(Shr(x, k), k)) == BitLength(x)
  {
    hide Shl, Shr, Low, Pow, BitLength;
    var n := BitLength(x) - 1;
    var y := Shl(Shr(x, k), k);
    BitLengthBounds(x);
    LengthDecides(0, x);
    LowShr(x, k);
    ShrAtLeast(x, n - k, k);
    ShlMonotone(Pow2(n - k), Shr(x, k), k);
    ShlPow(n - k, k);
    BitLengthMeans(y, n);
  }

  /** The compact form is a fixed point: its meaning has the same compact form. */
  lemma CompactIsStable(x: nat, negative: bool)
    ensures CompactOf(Cleared(x), negative) == CompactOf(x, negative)
  {
    hide Shl, Shr, Low, Pow, BitLength, Pack;
    var s, k, y := ByteLength(x), Dropped(x), Cleared(x);
    if Exponent(x) <= 3 {
      ShlZero(x);
      ShrZero(x);
    } else {
      ClearedLength(x, k);
      if s == 3 {
        ShlZero(x);
        ShlZero(y);
      }
      SameTop(x, y, s, k);
    }
  }

  lemma SameTop(x: nat, y: nat, s: nat, k: nat)
    requires s == ByteLength(x) == ByteLength(y) >= 3 && k == Dropped(x) >= 8 && y == Shl(Shr(x, k), k)
    requires s == 3 ==> TopBytes(x) == x && TopBytes(y) == y
    ensures (TopBytes(x) >= 0x80_0000 <==> TopBytes(y) >= 0x80_0000) && Mantissa(x) == Mantissa(y)
  {
    hide Shl, Shr, Low, Pow, BitLength;
    var t, at := TopBytes(x), 8 * (s - 3);
    if s == 3 {
      ShrZero(x);
      ShrZero(y);
    }
    assert t == Shr(x, at) && TopBytes(y) == Shr(y, at);
    ShrOfShl(Shr(x, k), k, at);
    if t < 0x80_0000 {
      ShlZero(Shr(x, k));
    } else {
      ShrShr(x, at, 8);
      var m := Shr(t, 8);
      assert Shr(y, at) == Shl(m, 8);
      ShrOfShl(m, 8, 8);
      ShlZero(m);
      Pow24();
      ShrAtLeast(t, 15, 8);
      ShlMonotone(Pow2(15), m, 8);
      ShlPow(15, 8);
    }
  }

  // ---------------------------------------------------------------- the two methods

  /** Sets a 256-bit number from its compact form; the flags tell when that is not what the compact form means. */
  method SetCompact(x: BaseUint, nCompact: nat) returns (fNegative: bool, fOverflow: bool)
    requires x.Valid() && x.pn.Length == 8 && nCompact < WORD
    modifies x.pn
    ensures x.Value() == Meaning(nCompact) % x.Modulus()
    ensures fNegative <==> WordOf(nCompact) != 0 && SignOf(nCompact)
    ensures fOverflow <==> Meaning(nCompact) >= x.Modulus()
    ensures !fOverflow ==> x.Value() == Meaning(nCompact)
  {
    hide Shl, Shr, Pow;
    var nSize := SizeOf(nCompact);
    var nWord := MantissaOf(nCompact);
    OverflowIs(nCompact);
    if nSize <= 3 {
      ShrBound(nWord, 8 * (3 - nSize));
      nWord := Shr(nWord, 8 * (3 - nSize));
      x.Set(nWord);
    } else {
      x.Set(nWord);
      x.ShiftLeft(8 * (nSize - 3));
    }
    if Meaning(nCompact) < x.Modulus() {
      DivModSmall(Meaning(nCompact), x.Modulus());
    }
    fNegative := nWord != 0 && SignOf(nCompact);
    fOverflow := nWord != 0 && (nSize > 34 || (nWord > 0xff && nSize > 33) || (nWord > 0xffff && nSize > 32));
  }

  lemma OverflowIs(n: nat)
    ensures Meaning(n) >= Pow2(256) <==>
      (var w, s := WordOf(n), SizeOf(n); w != 0 && (s > 34 || (w > 0xff && s > 33) || (w > 0xffff && s > 32)))
  {
    hide Shl, Shr, Pow;
    var w, s := WordOf(n), SizeOf(n);
    Pow24();
    PowZero(2);
    if s <= 3 {
      ShrBound(MantissaOf(n), 8 * (3 - s));
      PowMonotone(2, 24, 256);
    } else if s <= 32 {
      Overflows(w, 24, 8 * (s - 3), 256);
    } else if s == 33 {
      Overflows(w, 16, 8 * (s - 3), 256);
    } else if s == 34 {
      Overflows(w, 8, 8 * (s - 3), 256);
    } else {
      Overflows(w, 0, 8 * (s - 3), 256);
      ShlOfZero(8 * (s - 3));
      PowPositive(2, 256);
    }
  }

  lemma Overflows(w: nat, a: nat, k: nat, n: nat)
    ensures a + k <= n && w < Pow2(a) ==> Shl(w, k) < Pow2(n)
    ensures a + k >= n && w >= Pow2(a) ==> Shl(w, k) >= Pow2(n)
  {
    hide Shl, Pow;
    if w < Pow2(a) {
      ShlLess(w, a, k);
      if a + k <= n {
        PowMonotone(2, a + k, n);
      }
    } else {
      ShlMonotone(Pow2(a), w, k);
      ShlPow(a, k);
      if a + k >= n {
        PowMonotone(2, n, a + k);
      }
    }
  }

  /** The 64 low bits. */
  method GetLow64(x: BaseUint) returns (r: nat)
    requires x.Valid()
    ensures r == x.Value() % TWO64
  {
    hide Shl;
    LimbPow();
    OrDisjoint(x.pn[1], x.pn[0], 32);
    ShlLimb(x.pn[1]);
    OrCommutes(x.pn[0], Shl(x.pn[1], 32));
    r := Or(x.pn[0], Shl(x.pn[1], 32));
    SmallValue(x.pn[..]);
  }

  lemma SmallValue(s: seq<limb>)
    requires |s| >= 2
    ensures Val(s) % TWO64 == s[0] + WORD * s[1]
  {
    var rest := Val(s[1..][1..]);
    assert Val(s) == s[0] + WORD * Val(s[1..]);
    assert Val(s[1..]) == s[1] + WORD * rest;
    DivModUnique(Val(s), TWO64, rest, s[0] + WORD * s[1]);
  }

  method GetCompact(x: BaseUint, fNegative: bool) returns (nCompact: nat)
    requires x.Valid() && x.pn.Length == 8
    ensures nCompact == CompactOf(x.Value(), fNegative) < WORD
  {
    hide Shl, Shr, Pow, BitLength, Or, And;
    ghost var v := x.Value();
    TopBytesFit(v);
    MantissaIs(v);
    Pow24();
    var bits := x.Length();
    var nSize := (bits + 7) / 8;
    var n: nat;
    if nSize <= 3 {
      SmallNumber(v);
      var low := GetLow64(x);
      n := Shl(low, 8 * (3 - nSize));
    } else {
      var bn := new BaseUint.Copy(x);
      bn.ShiftRight(8 * (nSize - 3));
      n := GetLow64(bn);
    }
    assert n == TopBytes(v);
    TopBit(n, 23);
    if And(n, 0x0080_0000) != 0 {
      n := Shr(n, 8);
      nSize := nSize + 1;
    }
    assert n < 0x80_0000 && nSize < 256;
    PackedSize(n, nSize);
    nCompact := Or(n, Shl(nSize, 24));
    if fNegative && n != 0 {
      PackedSign(n, nSize);
      nCompact := Or(nCompact, 0x0080_0000);
    }
  }

  lemma SmallNumber(v: nat)
    requires ByteLength(v) <= 3
    ensures v < TWO64
  {
    hide Pow, BitLength;
    BitLengthBounds(v);
    PowMonotone(2, BitLength(v), 24);
    Pow24();
  }

  lemma PackedSize(n: nat, size: nat)
    requires n < 0x80_0000
    ensures Or(n, Shl(size, 24)) == size * 0x100_0000 + n
  {
    hide Shl, Pow, Or;
    Pow24();
    OrDisjoint(size, n, 24);
    OrCommutes(n, Shl(size, 24));
    ShlIsMul(size, 24);
  }

  lemma PackedSign(n: nat, size: nat)
    requires n < 0x80_0000
    ensures Or(size * 0x100_0000 + n, 0x80_0000) == size * 0x100_0000 + n + 0x80_0000
  {
    hide Shl, Pow, Or;
    Pow24();
    OrSplit(2 * size, n, 1, 23);
    ShlIsMul(2 * size, 23);
    ShlIsMul(1, 23);
    ShlIsMul(2 * size + 1, 23);
    OrBit(size);
  }

  /** Or works separately above and below a place. */
  lemma {:induction false} OrSplit(x: nat, y: nat, z: nat, k: nat)
    requires y < Pow2(k)
    ensures Or(Shl(x, k) + y, Shl(z, k)) == Shl(Or(x, z), k) + y
    decreases k
  {
    if k > 0 {
      OrSplit(x, y / 2, z, k - 1);
      assert (Shl(x, k) + y) / 2 == Shl(x, k - 1) + y / 2;
    }
  }

  lemma OrBit(x: nat)
    ensures Or(2 * x, 1) == 2 * x + 1
  {
    OrZero(x);
  }
}
