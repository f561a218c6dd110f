/**
base_uint: unsigned integers of a fixed number of 32-bit limbs, least significant limb
first. Every operator is proved equal to its integer meaning modulo 2^BITS.
*/
module ArithUint {
  import opened Numbers
  import opened Bits
  import opened Limbs

  class BaseUint {
    const pn: array<limb>

    /** There are at least two limbs, as the assignment of a 64-bit number demands. */
    ghost predicate Valid()
    {
      pn.Length >= 2
    }

    ghost function Value(): nat
      reads pn
    {
      Val(pn[..])
    }

    /** 2^BITS. */
    ghost function Modulus(): (m: nat)
      ensures m > 0
    {
      PowPositive(2, 32 * pn.Length);
      Pow2(32 * pn.Length)
    }

    constructor (width: nat, b: nat)
      requires width >= 2 && b < TWO64
      ensures Valid() && fresh(pn) && pn.Length == width && Value() == b
    {
      pn := new limb[width](_ => 0);
      new;
      Set(b);
    }

    constructor Copy(b: BaseUint)
      requires b.Valid()
      ensures Valid() && fresh(pn) && pn.Length == b.pn.Length && pn[..] == b.pn[..]
    {
      pn := new limb[b.pn.Length](i requires 0 <= i < b.pn.Length reads b.pn => b.pn[i]);
    }

    /** this = b, for a 64-bit number. */
    method Set(b: nat)
      requires Valid() && b < TWO64
      modifies pn
      ensures Value() == b
    {
      pn[0] := b % WORD;
      pn[1] := b / WORD;
      var i := 2;
      while i < pn.Length
        invariant 2 <= i <= pn.Length && pn[0] == b % WORD && pn[1] == b / WORD
        invariant forall j :: 2 <= j < i ==> pn[j] == 0
      {
        pn[i] := 0;
        i := i + 1;
      }
      LowTwo(pn[..]);
    }

    /** this += b, also when b is this. */
    method Add(b: BaseUint)
      requires Valid() && b.Valid() && b.pn.Length == pn.Length
      modifies pn
      ensures Value() == (old(Value()) + old(b.Value())) % Modulus()
    {
      hide Val, Shl, Pow;
      ghost var x, y := pn[..], b.pn[..];
      var carry: nat := 0;
      var i: nat := 0;
      NoLimbs(x, y, pn[..0]);
      while i < pn.Length
        invariant i <= pn.Length && carry <= 1
        invariant forall j :: i <= j < pn.Length ==> pn[j] == x[j] && b.pn[j] == y[j]
        invariant Val(pn[..i]) + Shl(carry, 32 * i) == Val(x[..i]) + Val(y[..i])
      {
        var n := carry + pn[i] + b.pn[i];
        ghost var done := pn[..i];
        AddStep(done, x, y, i, carry);
        pn[i] := n % WORD;
        carry := n / WORD;
        i := i + 1;
        assert pn[..i] == done + [n % WORD];
      }
      Whole(pn[..], x, y, i);
      ValBound(pn[..]);
      Truncated(Val(pn[..]), carry, 32 * i, Val(x) + Val(y));
    }

    /** ++this. */
    method Increment()
      requires Valid()
      modifies pn
      ensures Value() == (old(Value()) + 1) % Modulus()
    {
      hide Val, Shl, Pow;
      ghost var x := pn[..];
      var i := 0;
      while true
        invariant 0 <= i < pn.Length
        invariant forall j :: 0 <= j < i ==> pn[j] == 0 && x[j] == WORD - 1
        invariant forall j :: i <= j < pn.Length ==> pn[j] == x[j]
        decreases pn.Length - i
      {
        pn[i] := (pn[i] + 1) % WORD;
        if pn[i] != 0 || i == pn.Length - 1 {
          break;
        }
        i := i + 1;
      }
      Incremented(x, pn[..], i);
      ValBound(pn[..]);
      Truncated(Val(pn[..]), if pn[i] == 0 then 1 else 0, 32 * pn.Length, Val(x) + 1);
    }

    /** -this. */
    method Negated() returns (r: BaseUint)
      requires Valid()
      ensures fresh(r) && fresh(r.pn) && r.Valid() && r.pn.Length == pn.Length
      ensures r.Value() == (Modulus() - Value()) % Modulus()
    {
      hide Val, Shl, Pow;
      r := new BaseUint(pn.Length, 0);
      var i := 0;
      while i < pn.Length
        invariant 0 <= i <= pn.Length
        invariant forall j :: 0 <= j < i ==> r.pn[j] == WORD - 1 - pn[j]
      {
        r.pn[i] := WORD - 1 - pn[i];
        i := i + 1;
      }
      Complement(pn[..], r.pn[..]);
      r.Increment();
    }

    /** this -= b, also when b is this. */
    method Subtract(b: BaseUint)
      requires Valid() && b.Valid() && b.pn.Length == pn.Length
      modifies pn
      ensures Value() == (old(Value()) - old(b.Value())) % Modulus()
    {
      hide Val, Shl, Pow;
      ghost var x, y, m := Val(pn[..]), Val(b.pn[..]), Modulus();
      var negated := b.Negated();
      Add(negated);
      ValBound(old(pn[..]));
      ValBound(old(b.pn[..]));
      SubtractMod(x, y, m);
    }

    /** this *= b32. */
    method MultiplyWord(b32: limb)
      requires Valid()
      modifies pn
      ensures Value() == old(Value()) * b32 % Modulus()
    {
      hide Val, Shl, Pow;
      ghost var x := pn[..];
      ghost var zeros := seq(|x|, _ => 0 as limb);
      var carry: nat := 0;
      var i: nat := 0;
      NoLimbs(x, zeros, pn[..0]);
      NoProduct(b32, x, 0);
      while i < pn.Length
        invariant i <= pn.Length && carry < WORD
        invariant forall j :: i <= j < pn.Length ==> pn[j] == x[j]
        invariant Val(pn[..i]) + Shl(carry, 32 * i) == Val(zeros[..i]) + b32 * Shl(Val(x[..i]), 0)
      {
        AccumulatorFits(carry, 0, b32, pn[i]);
        var n := carry + b32 * pn[i];
        ghost var done := pn[..i];
        MultiplyStep(done, zeros, x, i, 0, carry, b32);
        pn[i] := n % WORD;
        carry := n / WORD;
        i := i + 1;
        assert pn[..i] == done + [n % WORD];
      }
      Whole(pn[..], x, zeros, i);
      ValZeros(zeros);
      ShlZero(Val(x));
      ValBound(pn[..]);
      Truncated(Val(pn[..]), carry, 32 * i, Val(x) * b32);
    }

    /**
    this *= b. When b is this, it is cleared before it is read, so that the result is the
    product exactly when the two are different objects or the square happens to be zero.
    */
    method Multiply(b: BaseUint)
      requires Valid() && b.Valid() && b.pn.Length == pn.Length
      modifies pn
      ensures b.pn != pn ==> Value() == old(Value()) * old(b.Value()) % Modulus()
      ensures b.pn == pn ==> Value() == 0
      ensures Value() == old(Value()) * old(b.Value()) % Modulus() <==>
        b.pn != pn || old(Value()) * old(Value()) % Modulus() == 0
    {
      hide Val, Shl, Pow;
      ghost var x := pn[..];
      var a := new BaseUint.Copy(this);
      Set(0);
      ghost var y, q := b.pn[..], 0;
      ghost var w := pn.Length;
      ShlOfZero(32 * w);
      NoLimbs(x, y, []);
      var j: nat := 0;
      while j < pn.Length
        invariant j <= w && a.pn[..] == x && b.pn[..] == y && (b.pn == pn ==> Val(y) == 0)
        invariant Val(pn[..]) + Shl(q, 32 * w) == Val(x[..j]) * Val(y)
      {
        ghost var before := pn[..];
        ValZeros(y);
        var carry: nat := AddRow(a.pn[j], b, j);
        q := RowStep(before, pn[..], x, y, w, j, carry, q);
        j := j + 1;
      }
      Whole(x, x, x, w);
      ValBound(pn[..]);
      Truncated(Val(pn[..]), q, 32 * w, Val(x) * Val(y));
    }

    /** Adds x * b, shifted by j limbs, and returns the carry that leaves the top. */
    method AddRow(x: limb, b: BaseUint, j: nat) returns (carry: nat)
      requires Valid() && b.Valid() && b.pn.Length == pn.Length && j < pn.Length
      requires b.pn == pn ==> forall i :: 0 <= i < pn.Length ==> pn[i] == 0
      modifies pn
      ensures b.pn[..] == old(b.pn[..])
      ensures Val(pn[..]) + Shl(carry, 32 * pn.Length) == old(Val(pn[..])) + x * Shl(Val(b.pn[..pn.Length - j]), 32 * j)
    {
      hide Val, Shl, Pow;
      ghost var before, y := pn[..], b.pn[..];
      carry := 0;
      var i: nat := 0;
      NoProduct(x, y, j);
      while i + j < pn.Length
        invariant i + j <= pn.Length && carry < WORD
        invariant b.pn[..] == y && (b.pn == pn ==> carry == 0)
        invariant pn[i + j..] == before[i + j..]
        invariant Val(pn[..i + j]) + Shl(carry, 32 * (i + j)) == Val(before[..i + j]) + x * Shl(Val(y[..i]), 32 * j)
      {
        ghost var done, rest := pn[..i + j], before[i + j..];
        assert pn[i + j] == before[i + j] by {
          assert pn[i + j..][0] == rest[0];
        }
        AccumulatorFits(carry, pn[i + j], x, b.pn[i]);
        var n := carry + pn[i + j] + x * b.pn[i];
        MultiplyStep(done, before, y, i, j, carry, x);
        pn[i + j] := n % WORD;
        carry := n / WORD;
        i := i + 1;
        assert pn[..i + j] == done + [n % WORD];
        assert pn[i + j..] == rest[1..] == before[i + j..];
      }
      Whole(pn[..], before, before, pn.Length);
    }

    /** The sign of this - b. */
    method CompareTo(b: BaseUint) returns (r: int)
      requires b.pn.Length == pn.Length
      ensures r == if Value() < b.Value() then -1 else if Value() > b.Value() then 1 else 0
    {
      hide Val;
      var i := pn.Length - 1;
      while i >= 0
        invariant -1 <= i < pn.Length
        invariant forall j :: i < j < pn.Length ==> pn[j] == b.pn[j]
      {
        if pn[i] < b.pn[i] {
          HighestDecides(pn[..], b.pn[..], i);
          return -1;
        }
        if pn[i] > b.pn[i] {
          HighestDecides(b.pn[..], pn[..], i);
          return 1;
        }
        i := i - 1;
      }
      assert pn[..] == b.pn[..];
      return 0;
    }

    /** The position of the highest one bit plus one, or zero. */
    method Length() returns (r: nat)
      ensures r == BitLength(Value())
      ensures r <= 32 * pn.Length
    {
      hide Val, And, Pow, BitLength;
      var pos := pn.Length - 1;
      while pos >= 0
        invariant -1 <= pos < pn.Length
        invariant forall j :: pos < j < pn.Length ==> pn[j] == 0
      {
        if pn[pos] != 0 {
          LimbPow();
          var bits := 31;
          while bits > 0
            invariant 0 <= bits <= 31
            invariant pn[pos] < Pow2(bits + 1)
          {
            TopBit(pn[pos], bits);
            if And(pn[pos], Pow2(bits)) != 0 {
              HighestLimb(pn[..], pos, bits);
              return 32 * pos + bits + 1;
            }
            bits := bits - 1;
          }
          SmallestPow();
          HighestLimb(pn[..], pos, 0);
          return 32 * pos + 1;
        }
        pos := pos - 1;
      }
      ValZeros(pn[..]);
      NoBits();
      return 0;
    }

    /** What the shift to the left does with one limb of the copy. */
    method PlaceLeft(d: limb, at: nat, s: nat)
      requires s < 32 && (at + 1 < pn.Length ==> pn[at + 1] == 0)
      modifies pn
      ensures forall j :: 0 <= j < pn.Length && j != at && j != at + 1 ==> pn[j] == old(pn[j])
      ensures at < pn.Length ==> pn[at] == OrLimb(old(pn[at]), Shl(d, s) % WORD)
      ensures at + 1 < pn.Length ==> pn[at + 1] == Shr(d, 32 - s)
    {
      hide Shl, Shr, OrLimb;
      SpillFits([d], 1, s);
      if at + 1 < pn.Length && s != 0 {
        OrNothing(ShrLimb(d, 32 - s));
        pn[at + 1] := OrLimb(pn[at + 1], ShrLimb(d, 32 - s));
      }
      if at < pn.Length {
        pn[at] := OrLimb(pn[at], Shl(d, s) % WORD);
      }
    }

    /** this <<= shift. */
    method ShiftLeft(shift: nat)
      requires Valid()
      modifies pn
      ensures Value() == Shl(old(Value()), shift) % Modulus()
    {
      hide Val, Shl, Shr, Pow, OrLimb, MovedLeft;
      ghost var x := pn[..];
      var a := new BaseUint.Copy(this);
      Set(0);
      var k, s := shift / 32, shift % 32;
      var i: nat := 0;
      NothingShifted(x, pn[..], k, s);
      while i < pn.Length
        invariant i <= pn.Length && a.pn[..] == x && MovedLeft(x, pn[..], i, k, s)
      {
        ghost var before := pn[..];
        RoomAbove(x, before, i, k, s);
        PlaceLeft(a.pn[i], i + k, s);
        MoveLeft(x, before, pn[..], i, k, s);
        i := i + 1;
      }
      ShiftedLeft(x, pn[..], k, s);
    }

    /** What the shift to the right does with one limb of the copy. */
    method PlaceRight(d: limb, at: int, s: nat)
      requires s < 32 && at < pn.Length && (at >= 0 ==> pn[at] == 0)
      modifies pn
      ensures forall j :: 0 <= j < pn.Length && j != at && j != at - 1 ==> pn[j] == old(pn[j])
      ensures at >= 0 ==> pn[at] == Shr(d, s)
      ensures at > 0 ==>
        pn[at - 1] == if s == 0 then old(pn[at - 1]) else OrLimb(old(pn[at - 1]), Shl(d, 32 - s) % WORD)
    {
      hide Shl, Shr, OrLimb;
      if at - 1 >= 0 && s != 0 {
        pn[at - 1] := OrLimb(pn[at - 1], Shl(d, 32 - s) % WORD);
      }
      if at >= 0 {
        OrNothing(ShrLimb(d, s));
        pn[at] := OrLimb(pn[at], ShrLimb(d, s));
      }
    }

    /** this >>= shift. */
    method ShiftRight(shift: nat)
      requires Valid()
      modifies pn
      ensures Value() == Shr(old(Value()), shift)
    {
      hide Val, Shl, Shr, Pow, OrLimb, ShrLimb, MovedRight;
      ghost var x := pn[..];
      var a := new BaseUint.Copy(this);
      Set(0);
      var k, s := shift / 32, shift % 32;
      var i: nat := 0;
      NothingMoved(x, pn[..], k, s);
      while i < pn.Length
        invariant i <= pn.Length && a.pn[..] == x && MovedRight(x, pn[..], i, k, s)
      {
        ghost var before := pn[..];
        RoomFor(x, before, i, k, s);
        PlaceRight(a.pn[i], i - k, s);
        MoveRight(x, before, pn[..], i, k, s);
        i := i + 1;
      }
      ShiftedRight(x, pn[..], k, s);
    }

    /** Sets one bit of the quotient; no bit at or below it is set yet. */
    method SetBit(pos: nat, ghost q: nat)
      requires pos < 32 * pn.Length && Value() == Shl(q, pos + 1)
      modifies pn
      ensures Value() == Shl(2 * q + 1, pos)
    {
      hide Val, Shl, Pow, OrLimb;
      BitIsFree(pn[..], pos, q);
      ghost var x := pn[..];
      pn[pos / 32] := OrLimb(pn[pos / 32], BitLimb(pos % 32));
      assert pn[..] == x[pos / 32 := pn[pos / 32]];
    }

    /** this /= b. Reports division by zero with this already cleared; num is left holding the remainder. */
    method Divide(b: BaseUint) returns (ok: bool, num: BaseUint)
      requires Valid() && b.Valid() && b.pn.Length == pn.Length
      modifies pn
      ensures fresh(num) && fresh(num.pn)
      ensures ok <==> old(b.Value()) != 0
      ensures !ok ==> Value() == 0
      ensures ok ==> Value() == old(Value()) / old(b.Value()) && num.Value() == old(Value()) % old(b.Value())
    {
      hide Val, Shl, Shr, Pow, BitLength;
      ghost var n, d, m := Value(), b.Value(), Modulus();
      var div := new BaseUint.Copy(b);
      num := new BaseUint.Copy(this);
      ValBound(pn[..]);
      Set(0);
      var num_bits := num.Length();
      var div_bits := div.Length();
      LengthDecides(n, d);
      if div_bits == 0 {
        return false, num;
      }
      if div_bits > num_bits {
        return true, num;
      }
      var shift: int := num_bits - div_bits;
      Aligned(n, d, 32 * pn.Length);
      div.ShiftLeft(shift);
      ghost var q: nat := 0;
      ShlOfZero(shift + 1);
      while shift >= 0
        invariant -1 <= shift < 32 * pn.Length
        invariant shift >= 0 ==> div.Value() == Shl(d, shift)
        invariant Value() == Shl(q, shift + 1) && num.Value() < Shl(d, shift + 1)
        invariant Value() * d + num.Value() == n
      {
        ghost var before := num.Value();
        var c := num.CompareTo(div);
        DivisionStep(n, d, q, before, shift);
        if c >= 0 {
          ValBound(num.pn[..]);
          num.Subtract(div);
          DivModSmall(before - Shl(d, shift), num.Modulus());
          SetBit(shift, q);
          q := 2 * q + 1;
        } else {
          q := 2 * q;
        }
        div.ShiftRight(1);
        shift := shift - 1;
      }
      ShlZero(d);
      DivModUnique(n, d, Value(), num.Value());
      ok := true;
    }
  }

  lemma LowTwo(s: seq<limb>)
    requires |s| >= 2 && forall j :: 2 <= j < |s| ==> s[j] == 0
    ensures Val(s) == s[0] + WORD * s[1]
  {
    var t := s[2..];
    ValZeros(t);
    assert s[1..][1..] == t;
  }

  lemma NoLimbs(x: seq<limb>, y: seq<limb>, z: seq<limb>)
    requires z == []
    ensures Val(x[..0]) == 0 && Val(y[..0]) == 0 && Val(z) == 0 && Shl(0, 0) == 0
  {
  }

  lemma Whole(x: seq<limb>, y: seq<limb>, z: seq<limb>, n: nat)
    requires |x| == |y| == |z| == n
    ensures x[..n] == x && y[..n] == y && z[..n] == z
  {
  }

  lemma Prefix(x: seq<limb>, i: nat)
    requires i < |x|
    ensures Val(x[..i + 1]) == Val(x[..i]) + Shl(x[i], 32 * i)
  {
    assert x[..i + 1] == x[..i] + [x[i]];
    ValAppend(x[..i], x[i]);
  }

  /** One limb of an addition. */
  lemma AddStep(done: seq<limb>, x: seq<limb>, y: seq<limb>, i: nat, carry: nat)
    requires |done| == i < |x| == |y| && carry <= 1
    requires Val(done) + Shl(carry, 32 * i) == Val(x[..i]) + Val(y[..i])
    ensures var n := carry + x[i] + y[i];
      && n / WORD <= 1
      && Val(done + [n % WORD]) + Shl(n / WORD, 32 * (i + 1)) == Val(x[..i + 1]) + Val(y[..i + 1])
  {
    hide Val, Shl;
    var n := carry + x[i] + y[i];
    ValAppend(done, n % WORD);
    Prefix(x, i);
    Prefix(y, i);
    LimbAt(n, i);
    ShlAdd(carry, x[i], 32 * i);
    ShlAdd(carry + x[i], y[i], 32 * i);
  }

  lemma {:induction false} Incremented(x: seq<limb>, r: seq<limb>, i: nat)
    requires i < |x| == |r| && r[i] == (x[i] + 1) % WORD && (r[i] != 0 || i == |x| - 1)
    requires forall j :: 0 <= j < i ==> r[j] == 0 && x[j] == WORD - 1
    requires forall j :: i < j < |x| ==> r[j] == x[j]
    ensures Val(r) + Shl(if r[i] == 0 then 1 else 0, 32 * |x|) == Val(x) + 1
    decreases i
  {
    hide Shl;
    var top := if r[i] == 0 then 1 else 0;
    ShlOfZero(32 * |x|);
    if i == 0 {
      assert r[1..] == x[1..];
      if r[i] == 0 {
        assert x[1..] == [];
        ShlLimb(1);
      }
    } else {
      Incremented(x[1..], r[1..], i - 1);
      ShlShl(top, 32 * (|x| - 1), 32);
      ShlLimb(Shl(top, 32 * (|x| - 1)));
    }
  }

  lemma {:induction false} Complement(x: seq<limb>, r: seq<limb>)
    requires |x| == |r| && forall j :: 0 <= j < |x| ==> r[j] == WORD - 1 - x[j]
    ensures Val(r) + Val(x) + 1 == Pow2(32 * |x|)
  {
    hide Pow;
    if x == [] {
      PowZero(2);
    } else {
      Complement(x[1..], r[1..]);
      LimbPow();
      PowAdd(2, 32, 32 * |x[1..]|);
    }
  }

  lemma SubtractMod(x: nat, y: nat, m: nat)
    requires x < m && y < m
    ensures (x + (m - y) % m) % m == (x - y) % m
  {
    if y > 0 {
      DivModSmall(m - y, m);
      if x >= y {
        DivModSmall(x - y, m);
        DivModUnique(x + m - y, m, 1, x - y);
      } else {
        DivModSmall(x + m - y, m);
        DivModUnique(x - y, m, -1, x - y + m);
      }
    } else {
      DivModUnique(m, m, 1, 0);
    }
  }

  /** The double-width accumulator of a multiplication never overflows. */
  lemma AccumulatorFits(carry: limb, a: limb, x: limb, y: limb)
    ensures 0 <= carry + a + x * y < TWO64 && (carry + a + x * y) / WORD < WORD
  {
    MulBound(x, y, WORD - 1);
    AccumulatorBound(carry, a, x * y);
  }

  lemma MulBound(x: nat, y: nat, m: nat)
    requires x <= m && y <= m
    ensures 0 <= x * y <= m * m
  {
    MulMonotone(x, m, y);
    MulMonotone(y, m, m);
  }

  lemma AccumulatorBound(carry: limb, a: limb, p: nat)
    requires p <= (WORD - 1) * (WORD - 1)
    ensures carry + a + p < TWO64 && (carry + a + p) / WORD < WORD
  {
  }

  /** One limb of multiplying y, shifted by j limbs, by the limb x and adding it. */
  lemma MultiplyStep(done: seq<limb>, before: seq<limb>, y: seq<limb>, i: nat, j: nat, carry: nat, x: limb)
    requires |done| == i + j < |before| && i < |y|
    requires Val(done) + Shl(carry, 32 * (i + j)) == Val(before[..i + j]) + x * Shl(Val(y[..i]), 32 * j)
    ensures var n := carry + before[i + j] + x * y[i];
      Val(done + [n % WORD]) + Shl(n / WORD, 32 * (i + j + 1))
      == Val(before[..i + j + 1]) + x * Shl(Val(y[..i + 1]), 32 * j)
  {
    hide Val, Shl;
    var at := i + j;
    var p := x * y[i];
    var n := carry + before[at] + p;
    ValAppend(done, n % WORD);
    Prefix(before, at);
    LimbAt(n, at);
    ShlAdd(carry, before[at], 32 * at);
    ShlAdd(carry + before[at], p, 32 * at);
    NextProduct(y, i, j, x);
  }

  lemma NextProduct(y: seq<limb>, i: nat, j: nat, x: limb)
    requires i < |y|
    ensures x * Shl(Val(y[..i + 1]), 32 * j) == x * Shl(Val(y[..i]), 32 * j) + Shl(x * y[i], 32 * (i + j))
  {
    hide Val, Shl;
    var d := Shl(y[i], 32 * i);
    Prefix(y, i);
    ShlAdd(Val(y[..i]), d, 32 * j);
    ShlShl(y[i], 32 * i, 32 * j);
    ShlMul(x, y[i], 32 * (i + j));
    Distributes(x, Shl(Val(y[..i]), 32 * j), Shl(d, 32 * j));
  }

  lemma NoProduct(x: nat, y: seq<limb>, j: nat)
    ensures x * Shl(Val(y[..0]), 32 * j) == 0 && Shl(0, 32 * j) == 0
  {
    ShlOfZero(32 * j);
  }

  /** The row of the schoolbook multiplication that the inner loop adds, and what it leaves out above the top. */
  lemma RowAdded(y: seq<limb>, w: nat, j: nat, x: limb)
    requires |y| == w && j <= w
    ensures x * Shl(Val(y[..w - j]), 32 * j) + Shl(x * Val(y[w - j..]), 32 * w) == Shl(x * Val(y), 32 * j)
  {
    hide Val, Shl;
    var lo, hi := Val(y[..w - j]), Val(y[w - j..]);
    ValSplit(y, w - j);
    ShlAdd(lo, Shl(hi, 32 * (w - j)), 32 * j);
    ShlShl(hi, 32 * (w - j), 32 * j);
    ShlMul(x, hi, 32 * w);
    ShlMul(x, Val(y), 32 * j);
    Distributes(x, Shl(lo, 32 * j), Shl(hi, 32 * w));
  }

  /** One row of the schoolbook multiplication. */
  lemma RowStep(before: seq<limb>, after: seq<limb>, x: seq<limb>, y: seq<limb>, w: nat, j: nat, carry: nat, q: nat)
    returns (r: nat)
    requires |before| == |after| == |x| == |y| == w && j < w
    requires Val(before) + Shl(q, 32 * w) == Val(x[..j]) * Val(y)
    requires Val(after) + Shl(carry, 32 * w) == Val(before) + x[j] * Shl(Val(y[..w - j]), 32 * j)
    ensures Val(after) + Shl(r, 32 * w) == Val(x[..j + 1]) * Val(y)
  {
    hide Val, Shl;
    var left := x[j] * Val(y[w - j..]);
    RowAdded(y, w, j, x[j]);
    r := q + carry + left;
    ShlAdd(q, carry, 32 * w);
    ShlAdd(q + carry, left, 32 * w);
    Prefix(x, j);
    ShlMul(Val(y), x[j], 32 * j);
    MulCommutes(Val(y), x[j]);
    MulCommutes(Val(y), Shl(x[j], 32 * j));
    MulCommutes(Val(y), Val(x[..j]));
    MulCommutes(Val(y), Val(x[..j + 1]));
    Distributes(Val(y), Val(x[..j]), Shl(x[j], 32 * j));
  }

  lemma MulCommutes(x: int, y: int)
    ensures x * y == y * x
  {
  }

  // ---------------------------------------------------------------- comparison

  lemma HighestDecides(x: seq<limb>, y: seq<limb>, i: nat)
    requires i < |x| == |y| && x[i] < y[i] && forall j :: i < j < |x| ==> x[j] == y[j]
    ensures Val(x) < Val(y)
  {
    hide Shl, Pow;
    ValSplit(x, i);
    ValSplit(y, i);
    assert x[i..][1..] == y[i..][1..];
    var a, b := Val(x[i..]), Val(y[i..]);
    ShlMonotone(a + 1, b, 32 * i);
    ShlAdd(a, 1, 32 * i);
    ShlPow(0, 32 * i);
    PowZero(2);
    ValBound(x[..i]);
  }

  /** How many binary digits a number has. */
  ghost function BitLength(x: nat): nat
  {
    if x == 0 then 0 else 1 + BitLength(x / 2)
  }

  lemma {:induction false} BitLengthMeans(x: nat, n: nat)
    requires Pow2(n) <= x < Pow2(n + 1)
    ensures BitLength(x) == n + 1
    decreases n
  {
    PowPositive(2, n);
    if n > 0 {
      BitLengthMeans(x / 2, n - 1);
    }
  }

  lemma {:induction false} BitLengthBounds(x: nat)
    ensures x < Pow2(BitLength(x))
    ensures x > 0 ==> BitLength(x) > 0 && Pow2(BitLength(x) - 1) <= x
  {
    if x > 1 {
      BitLengthBounds(x / 2);
    } else {
      assert BitLength(1) == 1 + BitLength(0);
      assert Pow2(1) == 2 && Pow2(0) == 1;
    }
  }

  lemma HighestLimb(s: seq<limb>, pos: nat, bits: nat)
    requires pos < |s| && forall j :: pos < j < |s| ==> s[j] == 0
    requires Pow2(bits) <= s[pos] < Pow2(bits + 1)
    ensures BitLength(Val(s)) == 32 * pos + bits + 1
  {
    hide Shl, Pow, BitLength;
    var d: nat := s[pos];
    ValSplit(s, pos);
    ValZeros(s[pos..][1..]);
    ValBound(s[..pos]);
    ShlMonotone(Pow2(bits), d, 32 * pos);
    ShlPow(bits, 32 * pos);
    ShlMonotone(d + 1, Pow2(bits + 1), 32 * pos);
    ShlPow(bits + 1, 32 * pos);
    ShlAdd(d, 1, 32 * pos);
    ShlPow(0, 32 * pos);
    PowZero(2);
    BitLengthMeans(Val(s), 32 * pos + bits);
  }

  lemma SmallestPow()
    ensures Pow2(0) == 1 && Pow2(1) == 2
  {
  }

  lemma NoBits()
    ensures BitLength(0) == 0
  {
  }

  // ---------------------------------------------------------------- shifts

  lemma OrNothing(x: limb)
    ensures OrLimb(0, x) == x
  {
    OrZero(x);
    OrCommutes(0, x);
  }

  /** What limb i - 1 contributes to the place of limb i. */
  function Spill(x: seq<limb>, i: nat, s: nat): nat
    requires i <= |x| && s < 32
  {
    if i == 0 then 0 else Shr(x[i - 1], 32 - s)
  }

  /** How many of the first i limbs have a place after moving up by k. */
  function Placed(w: nat, i: nat, k: nat): nat
  {
    if i + k <= w then i else if k <= w then w - k else 0
  }

  /** The first i limbs of x, moved up by k limbs and s bits, with what spills into the limb above them. */
  ghost predicate MovedLeft(x: seq<limb>, r: seq<limb>, i: nat, k: nat, s: nat)
  {
    var t, w := Placed(|x|, i, k), |x|;
    && |r| == w && i <= w && s < 32
    && (forall j :: 0 <= j < w && t + k < j ==> r[j] == 0)
    && (k >= w ==> forall j :: 0 <= j < w ==> r[j] == 0)
    && (t + k < w ==> r[t + k] == Spill(x, t, s))
    && (k <= w ==> Val(r[..t + k]) + Shl(Spill(x, t, s), 32 * (t + k)) == Shl(Val(x[..t]), 32 * k + s))
  }

  lemma NothingShifted(x: seq<limb>, zeros: seq<limb>, k: nat, s: nat)
    requires s < 32 && Val(zeros) == 0 && |zeros| == |x|
    ensures MovedLeft(x, zeros, 0, k, s)
  {
    hide Shl;
    ValZeros(zeros);
    ShlOfZero(32 * k);
    ShlOfZero(32 * k + s);
    if k <= |zeros| {
      ValZeros(zeros[..k]);
    }
  }

  lemma RoomAbove(x: seq<limb>, r: seq<limb>, i: nat, k: nat, s: nat)
    requires MovedLeft(x, r, i, k, s)
    ensures i + k + 1 < |r| ==> r[i + k + 1] == 0
  {
  }

  /** One limb more. */
  lemma MoveLeft(x: seq<limb>, r: seq<limb>, r': seq<limb>, i: nat, k: nat, s: nat)
    requires MovedLeft(x, r, i, k, s) && i < |x| && |r'| == |r|
    requires forall j :: 0 <= j < |r| && j != i + k && j != i + k + 1 ==> r'[j] == r[j]
    requires i + k < |r| ==> r'[i + k] == OrLimb(r[i + k], Shl(x[i], s) % WORD)
    requires i + k + 1 < |r| ==> r'[i + k + 1] == Shr(x[i], 32 - s)
    ensures MovedLeft(x, r', i + 1, k, s)
  {
    hide Val, Shl, Shr, Pow, OrLimb, Spill;
    var w, t := |x|, Placed(|x|, i, k);
    if i + k < w {
      ShiftLeftStep(r[..i + k], x, i, k, s);
      assert r'[..i + k + 1] == r[..i + k] + [r'[i + k]];
    } else if k <= w {
      assert r'[..t + k] == r[..t + k];
    }
  }

  lemma ShiftLeftStep(done: seq<limb>, x: seq<limb>, t: nat, k: nat, s: nat)
    requires |done| == t + k && s < 32 && t < |x|
    requires Val(done) + Shl(Spill(x, t, s), 32 * (t + k)) == Shl(Val(x[..t]), 32 * k + s)
    ensures Spill(x, t, s) < WORD && Shr(x[t], 32 - s) == Spill(x, t + 1, s)
    ensures s == 0 ==> Spill(x, t + 1, s) == 0
    ensures var d := OrLimb(Spill(x, t, s), Shl(x[t], s) % WORD);
      Val(done + [d]) + Shl(Spill(x, t + 1, s), 32 * (t + k + 1)) == Shl(Val(x[..t + 1]), 32 * k + s)
  {
    hide Val, Shl, Shr, Low, Pow, Or;
    var at := 32 * (t + k);
    var c := Spill(x, t, s);
    SpillFits(x, t, s);
    SpillFits(x, t + 1, s);
    LimbShift(x[t], s);
    OrDisjoint(Low(x[t], 32 - s), c, s);
    OrCommutes(c, Shl(x[t], s) % WORD);
    var d := OrLimb(c, Shl(x[t], s) % WORD);
    ValAppend(done, d);
    ShlAdd(c, Shl(x[t], s) % WORD, at);
    LimbAt(Shl(x[t], s), t + k);
    Prefix(x, t);
    ShlAdd(Val(x[..t]), Shl(x[t], 32 * t), 32 * k + s);
    ShlShl(x[t], 32 * t, 32 * k + s);
    ShlShl(x[t], s, at);
  }

  lemma SpillFits(x: seq<limb>, t: nat, s: nat)
    requires t <= |x| && s < 32
    ensures Spill(x, t, s) < WORD && Spill(x, t, s) < Pow2(s)
    ensures s == 0 ==> Spill(x, t, s) == 0
  {
    hide Shr, Pow;
    PowPositive(2, s);
    PowZero(2);
    if t > 0 {
      SpillBound(x[t - 1], s);
      ShrBound(x[t - 1], 32 - s);
    }
  }

  lemma ShiftedLeft(x: seq<limb>, r: seq<limb>, k: nat, s: nat)
    requires MovedLeft(x, r, |x|, k, s)
    ensures Pow2(32 * |x|) > 0 && Val(r) == Shl(Val(x), 32 * k + s) % Pow2(32 * |x|)
  {
    hide Val, Shl, Shr, Pow, Spill;
    var w := |x|;
    ValBound(r);
    if k <= w {
      var t := w - k;
      assert r[..t + k] == r;
      var hi, c := Val(x[t..]), Spill(x, t, s);
      ValSplit(x, t);
      ShlAdd(Val(x[..t]), Shl(hi, 32 * t), 32 * k + s);
      ShlShl(hi, 32 * t, 32 * k + s);
      ShlShl(hi, s, 32 * w);
      ShlAdd(c, Shl(hi, s), 32 * w);
      Truncated(Val(r), c + Shl(hi, s), 32 * w, Shl(Val(x), 32 * k + s));
    } else {
      ValZeros(r);
      var extra := 32 * k + s - 32 * w;
      ShlShl(Val(x), extra, 32 * w);
      Truncated(0, Shl(Val(x), extra), 32 * w, Shl(Val(x), 32 * k + s));
    }
  }

  /** The first i limbs of x, moved down by k limbs and s bits. */
  ghost predicate MovedRight(x: seq<limb>, r: seq<limb>, i: nat, k: nat, s: nat)
  {
    && |r| == |x| && i <= |x| && s < 32
    && (forall j :: 0 <= j < |x| && i - k <= j ==> r[j] == 0)
    && (i > k ==> r[i - k - 1] == Shr(x[i - 1], s) && Val(r[..i - k]) == Shr(Val(x[k..i]), s))
  }

  lemma NothingMoved(x: seq<limb>, zeros: seq<limb>, k: nat, s: nat)
    requires s < 32 && Val(zeros) == 0 && |zeros| == |x|
    ensures MovedRight(x, zeros, 0, k, s)
  {
    ValZeros(zeros);
  }

  lemma RoomFor(x: seq<limb>, r: seq<limb>, i: nat, k: nat, s: nat)
    requires MovedRight(x, r, i, k, s)
    ensures k <= i < |r| ==> r[i - k] == 0
  {
  }

  /** One limb more. */
  lemma MoveRight(x: seq<limb>, r: seq<limb>, r': seq<limb>, i: nat, k: nat, s: nat)
    requires MovedRight(x, r, i, k, s) && i < |x| && |r'| == |r|
    requires forall j :: 0 <= j < |r| && j != i - k && j != i - k - 1 ==> r'[j] == r[j]
    requires i >= k ==> r'[i - k] == Shr(x[i], s)
    requires i > k ==>
      r'[i - k - 1] == if s == 0 then r[i - k - 1] else OrLimb(r[i - k - 1], Shl(x[i], 32 - s) % WORD)
    ensures MovedRight(x, r', i + 1, k, s)
  {
    hide Val, Shl, Shr, Pow, OrLimb, ShrLimb;
    if i >= k {
      var done := r[..i - k];
      ShiftRightStep(done, x, i, k, s);
      if i > k {
        assert r'[..i - k + 1] == done[i - k - 1 := r'[i - k - 1]] + [r'[i - k]];
      } else {
        assert r'[..i - k + 1] == [r'[i - k]];
      }
    }
  }

  lemma ShiftRightStep(done: seq<limb>, x: seq<limb>, i: nat, k: nat, s: nat)
    requires k <= i < |x| && |done| == i - k && s < 32
    requires i > k ==> done[i - k - 1] == Shr(x[i - 1], s) && Val(done) == Shr(Val(x[k..i]), s)
    ensures ShrLimb(x[i], s) == Shr(x[i], s)
    ensures i == k ==> Val([ShrLimb(x[i], s)]) == Shr(Val(x[k..i + 1]), s)
    ensures i > k ==> var d := if s == 0 then done[i - k - 1] else OrLimb(done[i - k - 1], Shl(x[i], 32 - s) % WORD);
      Val(done[i - k - 1 := d] + [ShrLimb(x[i], s)]) == Shr(Val(x[k..i + 1]), s)
  {
    hide Val, Shl, Shr, Low, Pow, Or;
    if i == k {
      assert x[k..i + 1] == [x[i]];
      ValOne(x[i]);
      ValOne(ShrLimb(x[i], s));
    } else {
      var m := i - k - 1;
      var hi, e := Shl(x[i], 32 - s) % WORD, done[m];
      LimbShift(x[i], 32 - s);
      ShrFits(x[i - 1], s);
      OrDisjoint(Low(x[i], s), e, 32 - s);
      OrCommutes(e, hi);
      ZeroLow(x[i]);
      var d := if s == 0 then e else OrLimb(e, hi);
      assert d == e + hi;
      ShlAdd(e, hi, 32 * m);
      ValUpdate(done, m, d);
      ValAppend(done[m := d], ShrLimb(x[i], s));
      LimbAt(Shl(x[i], 32 - s), m);
      ShlShl(x[i], 32 - s, 32 * m);
      assert x[k..i + 1] == x[k..i] + [x[i]];
      ValAppend(x[k..i], x[i]);
      ShrAddShl(Val(x[k..i]), x[i], 32 * (m + 1), s);
    }
  }

  lemma ShrFits(x: limb, s: nat)
    requires s < 32
    ensures Shr(x, s) < Pow2(32 - s)
  {
    SpillBound(x, 32 - s);
  }

  lemma ZeroLow(x: limb)
    ensures Shl(Low(x, 0), 32) == 0
  {
    ShlOfZero(32);
  }

  lemma ShiftedRight(x: seq<limb>, r: seq<limb>, k: nat, s: nat)
    requires MovedRight(x, r, |x|, k, s)
    ensures Val(r) == Shr(Val(x), 32 * k + s)
  {
    hide Val, Shl, Shr, Pow;
    var w := |x|;
    ShrShr(Val(x), 32 * k, s);
    if w > k {
      assert x[k..] == x[k..w];
      ValSplit(r, w - k);
      ValZeros(r[w - k..]);
      ShlOfZero(32 * (w - k));
      ValSplit(x, k);
      ValBound(x[..k]);
      ShrLowOfShl(Val(x[k..]), 32 * k, Val(x[..k]));
    } else {
      ValZeros(r);
      ValBound(x);
      PowMonotone(2, 32 * w, 32 * k);
      LowSmall(Val(x), 32 * k);
      ShrNothing(s);
    }
  }

  lemma {:induction false} ShrNothing(s: nat)
    ensures Shr(0, s) == 0
  {
    if s > 0 {
      ShrNothing(s - 1);
    }
  }

  // ---------------------------------------------------------------- division

  lemma BitLimbFits(b: nat)
    requires b < 32
    ensures Shl(1, b) < WORD && Shl(1, b) < Pow2(b + 1) && Shl(1, b) == Pow2(b)
  {
    hide Shl, Pow;
    SmallestPow();
    ShlLess(1, 1, b);
    PowMonotone(2, b + 1, 32);
    LimbPow();
    ShlPow(0, b);
  }

  function BitLimb(b: nat): limb
    requires b < 32
  {
    BitLimbFits(b);
    Shl(1, b)
  }

  /** The limb that receives a bit of the quotient is a multiple of the next higher power. */
  lemma BitIsFree(s: seq<limb>, pos: nat, q: nat)
    requires pos < 32 * |s| && Val(s) == Shl(q, pos + 1)
    ensures var m, b := pos / 32, pos % 32;
      Val(s[m := OrLimb(s[m], BitLimb(b))]) == Shl(2 * q + 1, pos)
  {
    hide Val, Shl, Shr, Low, Pow, Or;
    var m, b := pos / 32, pos % 32;
    LimbIs(s, m);
    ShlShl(q, b + 1, 32 * m);
    PowPositive(2, 32 * m);
    ShrLowOfShl(Shl(q, b + 1), 32 * m, 0);
    LowOfShl(q, b + 1, 31 - b);
    var r := Low(q, 31 - b);
    assert s[m] == Shl(r, b + 1);
    BitLimbFits(b);
    OrDisjoint(r, Shl(1, b), b + 1);
    ShlAdd(s[m], Shl(1, b), 32 * m);
    ShlShl(1, b, 32 * m);
    ValUpdate(s, m, OrLimb(s[m], BitLimb(b)));
    Doubled(q, pos);
    ShlAdd(2 * q, 1, pos);
  }

  lemma Doubled(q: nat, pos: nat)
    ensures Shl(2 * q, pos) == Shl(q, pos + 1) == 2 * Shl(q, pos)
  {
    ShlShl(q, 1, pos);
  }

  lemma LengthDecides(n: nat, d: nat)
    ensures BitLength(d) == 0 <==> d == 0
    ensures d > 0 && BitLength(d) > BitLength(n) ==> n / d == 0 && n % d == n
  {
    hide Pow;
    BitLengthBounds(n);
    BitLengthBounds(d);
    if d > 0 && BitLength(d) > BitLength(n) {
      PowMonotone(2, BitLength(n), BitLength(d) - 1);
      DivModSmall(n, d);
    }
  }

  /** The divisor shifted so that its highest bit meets that of the dividend still fits. */
  lemma Aligned(n: nat, d: nat, bits: nat)
    requires d > 0 && BitLength(d) <= BitLength(n) && n < Pow2(bits)
    ensures var shift := BitLength(n) - BitLength(d);
      && shift < bits && n < Shl(d, shift + 1)
      && Pow2(bits) > 0 && Shl(d, shift) % Pow2(bits) == Shl(d, shift)
  {
    hide Shl, Pow, BitLength;
    var a, b := BitLength(n), BitLength(d);
    BitLengthBounds(n);
    BitLengthBounds(d);
    LengthDecides(n, d);
    LengthDecides(d, n);
    if a > bits {
      PowMonotone(2, bits, a - 1);
    }
    ShlMonotone(Pow2(b - 1), d, a - b + 1);
    ShlPow(b - 1, a - b + 1);
    ShlLess(d, b, a - b);
    PowMonotone(2, a, bits);
    DivModSmall(Shl(d, a - b), Pow2(bits));
  }

  /** One step of the shift-subtract division, with and without a subtraction. */
  lemma DivisionStep(n: nat, d: nat, q: nat, num: nat, shift: nat)
    requires Shl(q, shift + 1) * d + num == n && num < Shl(d, shift + 1)
    ensures num >= Shl(d, shift) ==>
      num - Shl(d, shift) < Shl(d, shift) && Shl(2 * q + 1, shift) * d + num - Shl(d, shift) == n
    ensures Shl(2 * q, shift) * d + num == n
    ensures Shl(2 * q, shift) == Shl(q, shift + 1)
    ensures shift > 0 ==> Shr(Shl(d, shift), 1) == Shl(d, shift - 1)
  {
    hide Shl, Shr;
    Doubled(q, shift);
    Doubled(d, shift);
    ShlAdd(2 * q, 1, shift);
    ShlMul(d, 1, shift);
    Distributes(d, Shl(2 * q, shift), Shl(1, shift));
    if shift > 0 {
      Doubled(d, shift - 1);
      Halved(Shl(d, shift - 1));
    }
  }

  lemma Halved(x: nat)
    ensures Shr(2 * x, 1) == x
  {
  }
}
