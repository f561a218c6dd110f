/**
The working memory of the proof of work: folding bytes together, rotating a byte string,
modifying the memory and walking over it for the final result. The one-way functions and
the random number generator are parameters.
*/
module WorkMemory {
  import opened Numbers
  import opened Bits
  import opened Results
  import opened VarInt

  const WORK_MEMORY_SIZE: nat := 0x10_0000
  const OUTPUT_LEN: nat := 32

  // ---------------------------------------------------------------- folding

  /** The exclusive or of all bytes. */
  function XorAll(s: seq<byte>): byte
  {
    if s == [] then 0 else XorByte(XorAll(s[..|s| - 1]), s[|s| - 1])
  }

  /** The exclusive or of the bytes at positions j, j + n, j + 2 n and so on. */
  function Column(s: seq<byte>, n: nat, j: nat): byte
    requires n > 0
  {
    if s == [] then 0
    else
      var rest := Column(s[..|s| - 1], n, j);
      if (|s| - 1) % n == j then XorByte(rest, s[|s| - 1]) else rest
  }

  function Folded(s: seq<byte>, n: nat): (r: seq<byte>)
    requires n > 0
    ensures |r| == n
  {
    seq(n, j requires 0 <= j < n => Column(s, n, j))
  }

  /** reduce_bit: the input folded onto bits / 8 bytes. */
  method ReduceBit(input: seq<byte>, bits: nat) returns (output: seq<byte>)
    requires 8 <= bits && bits / 8 <= |input|
    ensures output == Folded(input, bits / 8)
  {
    hide Column, XorByte, Folded;
    var n := bits / 8;
    output := input[..n];
    FoldedStart(input, n);
    var i := n;
    while i < |input|
      invariant n <= i <= |input| && output == Folded(input[..i], n)
    {
      DivModEquation(i, n);
      DivModSmall(i, |input|);
      FoldedStep(input[..i + 1], n);
      assert input[..i + 1][..i] == input[..i];
      output := output[i % n := XorByte(output[i % n], input[i % |input|])];
      i := i + 1;
    }
    assert input[..i] == input;
  }

  lemma FoldedStep(s: seq<byte>, n: nat)
    requires n > 0 && s != []
    ensures var i, t := |s| - 1, s[..|s| - 1];
      0 <= i % n < n && Folded(s, n) == Folded(t, n)[i % n := XorByte(Folded(t, n)[i % n], s[i])]
  {
    hide XorByte;
    DivModEquation(|s| - 1, n);
  }

  lemma {:induction false} ColumnOfStart(s: seq<byte>, n: nat, j: nat)
    requires n > 0 && |s| <= n && j < n
    ensures Column(s, n, j) == if j < |s| then s[j] else 0
  {
    if s != [] {
      var m := |s| - 1;
      ColumnOfStart(s[..m], n, j);
      DivModSmall(m, n);
      if j == m {
        XorZero(s[m]);
        XorCommutes(0, s[m]);
      }
    }
  }

  lemma FoldedStart(s: seq<byte>, n: nat)
    requires 0 < n <= |s|
    ensures Folded(s[..n], n) == s[..n]
  {
    hide Column;
    forall j | 0 <= j < n ensures Folded(s[..n], n)[j] == s[..n][j] {
      ColumnOfStart(s[..n], n, j);
    }
  }

  /** Changing one byte changes the exclusive or of all by the difference. */
  lemma {:induction false} XorUpdate(s: seq<byte>, i: nat, v: byte)
    requires i < |s|
    ensures XorAll(s[i := v]) == XorByte(XorByte(XorAll(s), s[i]), v)
  {
    hide XorByte;
    var n := |s| - 1;
    var t := s[i := v];
    if i == n {
      assert t[..n] == s[..n];
      XorBack(XorAll(s[..n]), s[n], v);
    } else {
      XorUpdate(s[..n], i, v);
      assert t[..n] == s[..n][i := v];
      XorMiddle(XorAll(s[..n]), s[i], v, s[n]);
    }
  }

  lemma XorBack(x: byte, y: byte, v: byte)
    ensures XorByte(XorByte(XorByte(x, y), y), v) == XorByte(x, v)
  {
    hide Xor;
    XorAssociates(x, y, y);
    XorCancels(y, y);
    XorZero(x);
  }

  lemma XorMiddle(x: byte, a: byte, v: byte, z: byte)
    ensures XorByte(XorByte(XorByte(x, a), v), z) == XorByte(XorByte(XorByte(x, z), a), v)
  {
    hide Xor;
    XorAssociates(x, a, v);
    XorAssociates(x, Xor(a, v), z);
    XorCommutes(Xor(a, v), z);
    XorAssociates(x, z, Xor(a, v));
    XorAssociates(Xor(x, z), a, v);
  }

  lemma {:induction false} XorZeros(n: nat)
    ensures XorAll(seq(n, _ => 0)) == 0
  {
    if n > 0 {
      XorZeros(n - 1);
      var z: seq<byte> := seq(n, _ => 0);
      assert z[..n - 1] == seq(n - 1, _ => 0);
    }
  }

  /** Folding keeps the exclusive or of all bytes. */
  lemma {:induction false} FoldingKeeps(s: seq<byte>, n: nat)
    requires n > 0
    ensures XorAll(Folded(s, n)) == XorAll(s)
    decreases |s|
  {
    hide XorByte;
    if s == [] {
      assert Folded(s, n) == seq(n, _ => 0);
      XorZeros(n);
    } else {
      var i, t := |s| - 1, s[..|s| - 1];
      var f := Folded(t, n);
      DivModEquation(i, n);
      FoldingKeeps(t, n);
      FoldedStep(s, n);
      XorUpdate(f, i % n, XorByte(f[i % n], s[i]));
      XorOut(XorAll(t), f[i % n], s[i]);
    }
  }

  lemma XorOut(x: byte, a: byte, b: byte)
    ensures XorByte(XorByte(x, a), XorByte(a, b)) == XorByte(x, b)
  {
    hide Xor;
    XorAssociates(x, a, Xor(a, b));
    XorAssociates(a, a, b);
    XorCancels(a, a);
    XorZero(b);
    XorCommutes(b, 0);
  }

  // ---------------------------------------------------------------- rotation

  function RotatedByte(x: byte, y: byte, s: nat): byte
    requires s < 8
  {
    ShrBound(x, s);
    assert Pow2(8) == 256;
    OrBound(Shr(x, s), Shl(y, 8 - s) % 256, 8);
    Or(Shr(x, s), Shl(y, 8 - s) % 256)
  }

  function RotatedAt(input: seq<byte>, bits: nat, i: nat): byte
    requires bits / 8 < |input| && i < |input|
  {
    var n, k := |input|, bits / 8;
    RotatedByte(input[if i >= k then i - k else i - k + n], input[if i > k then i - k - 1 else i - k - 1 + n], bits % 8)
  }

  function Rotated(input: seq<byte>, bits: nat): (r: seq<byte>)
    requires |input| > 0 && bits / 8 < |input|
    ensures |r| == |input|
  {
    seq(|input|, i requires 0 <= i < |input| => RotatedAt(input, bits, i))
  }

  /** rrs: rotation to the right of the bytes as one bit string. */
  method Rrs(input: seq<byte>, bits: nat) returns (output: seq<byte>)
    requires |input| > 0 && bits / 8 < |input|
    ensures output == Rotated(input, bits)
  {
    hide RotatedByte;
    var n := |input|;
    var shiftBytes, shiftBits := bits / 8, bits % 8;
    var rIndex := n - shiftBytes;
    var lIndex := Wrap(rIndex + n - 1, n);
    output := [];
    var i := 0;
    while i < n
      invariant 0 <= i <= n && |output| == i
      invariant rIndex == n - shiftBytes + i
      invariant lIndex == n - shiftBytes - 1 + i
      invariant output == Rotated(input, bits)[..i]
    {
      var x, y := input[Wrap(rIndex, n)], input[Wrap(lIndex, n)];
      assert Rotated(input, bits)[i] == RotatedByte(x, y, shiftBits);
      output := output + [RotatedByte(x, y, shiftBits)];
      rIndex, lIndex := rIndex + 1, lIndex + 1;
      i := i + 1;
    }
  }

  /** i % n, for an index that has gone past the end less than twice. */
  function Wrap(i: nat, n: nat): (r: nat)
    requires 0 < n && i < 2 * n
    ensures r == if i < n then i else i - n
  {
    OnceAround(i, n);
    i % n
  }

  lemma OnceAround(i: nat, n: nat)
    requires 0 < n && i < 2 * n
    ensures i % n == if i < n then i else i - n
  {
    if i < n {
      DivModSmall(i, n);
    } else {
      DivModUnique(i, n, 1, i - n);
    }
  }

  /** Bit p of a byte string, counted from its first and most significant bit. */
  predicate BitAt(s: seq<byte>, p: nat)
    requires p < 8 * |s|
  {
    BitOf(s[p / 8], 7 - p % 8)
  }

  lemma {:induction false} BitOfSum(x: nat, y: nat, n: nat, k: nat)
    requires y < Pow2(n)
    ensures BitOf(Shl(x, n) + y, k) <==> if k < n then BitOf(y, k) else BitOf(x, k - n)
    decreases n, k
  {
    if n > 0 {
      assert (Shl(x, n) + y) / 2 == Shl(x, n - 1) + y / 2;
      assert (Shl(x, n) + y) % 2 == y % 2;
      if k > 0 {
        BitOfSum(x, y / 2, n - 1, k - 1);
      }
    }
  }

  lemma {:induction false} BitOfShr(x: nat, s: nat, k: nat)
    ensures BitOf(Shr(x, s), k) <==> BitOf(x, k + s)
    decreases s
  {
    if s > 0 {
      BitOfShr(x / 2, s - 1, k);
    }
  }

  lemma {:induction false} BitOfLow(x: nat, n: nat, k: nat)
    requires k < n
    ensures BitOf(Low(x, n), k) <==> BitOf(x, k)
    decreases k
  {
    if k > 0 {
      BitOfLow(x / 2, n - 1, k - 1);
      assert Low(x, n) / 2 == Low(x / 2, n - 1);
    }
  }

  lemma RotatedByteBit(x: byte, y: byte, s: nat, k: nat)
    requires s < 8 && k < 8
    ensures BitOf(RotatedByte(x, y, s), k) <==> if k < 8 - s then BitOf(x, k + s) else BitOf(y, k - (8 - s))
  {
    hide Shl, Shr, Low, Or, BitOf, Pow;
    EightBits();
    var hi, lo := Shl(y, 8 - s) % 256, Shr(x, s);
    ByteShift(x, y, s);
    OrDisjoint(Low(y, s), lo, 8 - s);
    OrCommutes(lo, hi);
    BitOfSum(Low(y, s), lo, 8 - s, k);
    BitOfShr(x, s, k);
    if k >= 8 - s {
      BitOfLow(y, s, k - (8 - s));
    }
  }

  lemma EightBits()
    ensures Pow2(8) == 256
  {
  }

  lemma ByteShift(x: byte, y: byte, s: nat)
    requires s < 8
    ensures Shr(x, s) < Pow2(8 - s) && Shl(y, 8 - s) % 256 == Shl(Low(y, s), 8 - s)
  {
    hide Shl, Shr, Low, Pow;
    EightBits();
    LowShr(x, s);
    if Shr(x, s) >= Pow2(8 - s) {
      ShlMonotone(Pow2(8 - s), Shr(x, s), s);
      ShlPow(8 - s, s);
    }
    LowOfShl(y, 8 - s, s);
    ShrIsDiv(Shl(y, 8 - s), 8);
  }

  /** Every bit moves to the right by `bits` places, and those that leave the end come in at the front. */
  lemma RotationMovesBits(input: seq<byte>, bits: nat, p: nat)
    requires |input| > 0 && bits / 8 < |input| && p < 8 * |input|
    ensures BitAt(Rotated(input, bits), p) <==> BitAt(input, if p >= bits then p - bits else p - bits + 8 * |input|)
  {
    hide RotatedByte, BitOf;
    var n, k, s := |input|, bits / 8, bits % 8;
    var i := p / 8;
    var x := input[if i >= k then i - k else i - k + n];
    var y := input[if i > k then i - k - 1 else i - k - 1 + n];
    RotatedByteBit(x, y, s, 7 - p % 8);
  }

  // ---------------------------------------------------------------- the parameters

  /** The numbers of the one-way functions. */
  type Selection = t: nat | t < 16

  datatype Oracle<!R> = Oracle(func: (Selection, seq<byte>) -> seq<byte>, seed: nat -> R, next: R -> (R, nat)) {
    /** Every one-way function gives 32 bytes. */
    ghost predicate Lawful()
    {
      forall t, x :: |func(t, x)| == OUTPUT_LEN
    }
  }

  function U64(n: nat): nat
  {
    n % TWO64
  }

  /** All bytes folded onto one. */
  function FoldByte(s: seq<byte>): byte
  {
    Column(s, 1, 0)
  }

  method ReduceToByte(s: seq<byte>) returns (r: byte)
    requires |s| > 0
    ensures r == FoldByte(s)
  {
    var out := ReduceBit(s, 8);
    r := out[0];
  }

  /** The number of a one-way function, taken from the two halves of a byte. */
  function Selector(t: byte): Selection
  {
    assert Pow2(4) == 16;
    XorBound(t % 16, t / 16, 4);
    Xor(t % 16, t / 16)
  }

  // ---------------------------------------------------------------- modifying the memory

  function FirstAddress(base: nat, offset: nat): nat
    requires offset <= WORK_MEMORY_SIZE
  {
    U64(base + WORK_MEMORY_SIZE - offset) % WORK_MEMORY_SIZE
  }

  function SecondAddress(base: nat, offset: nat): nat
  {
    U64(base + offset) % WORK_MEMORY_SIZE
  }

  /** An odd offset below 2^16. */
  function OffsetOf(r: nat): (offset: nat)
    ensures 0 < offset < 0x1_0000 && offset % 2 == 1
  {
    FoldByte(LittleEndian(8, r)) * 256 + 1
  }

  lemma AddressesDiffer(base: nat, offset: nat)
    requires 0 < offset < 0x1_0000
    ensures FirstAddress(base, offset) != SecondAddress(base, offset)
    ensures FirstAddress(base, offset) < WORK_MEMORY_SIZE && SecondAddress(base, offset) < WORK_MEMORY_SIZE
  {
    WrapsEvenly(base + WORK_MEMORY_SIZE - offset);
    WrapsEvenly(base + offset);
    ShiftedApart(base + WORK_MEMORY_SIZE - offset, offset);
  }

  lemma WrapsEvenly(n: nat)
    ensures U64(n) % WORK_MEMORY_SIZE == n % WORK_MEMORY_SIZE
  {
    var q, r := n / TWO64, n % TWO64;
    DivModUnique(n, WORK_MEMORY_SIZE, q * (TWO64 / WORK_MEMORY_SIZE) + r / WORK_MEMORY_SIZE, r % WORK_MEMORY_SIZE);
  }

  lemma ShiftedApart(x: nat, offset: nat)
    requires 0 < offset < 0x1_0000 && x + 2 * offset >= WORK_MEMORY_SIZE
    ensures x % WORK_MEMORY_SIZE != (x + 2 * offset - WORK_MEMORY_SIZE) % WORK_MEMORY_SIZE
  {
  }

  lemma XorPair(m: seq<byte>, x: nat, y: nat, s: byte)
    requires x < |m| && y < |m| && x != y
    ensures XorAll(m[x := XorByte(m[y], s)][y := XorByte(m[x], s)]) == XorAll(m)
  {
    hide XorByte, XorAll;
    var t1, t2 := m[x], m[y];
    var m1 := m[x := XorByte(t2, s)];
    XorUpdate(m, x, XorByte(t2, s));
    XorUpdate(m1, y, XorByte(t1, s));
    XorFour(XorAll(m), t1, t2, s);
  }

  lemma XorFour(a: byte, t1: byte, t2: byte, s: byte)
    ensures XorByte(XorByte(XorByte(XorByte(a, t1), XorByte(t2, s)), t2), XorByte(t1, s)) == a
  {
    hide Xor;
    var b := Xor(a, t1);
    // The last three terms contribute t1.
    XorAssociates(b, Xor(t2, s), t2);
    XorCommutes(Xor(t2, s), t2);
    XorAssociates(t2, t2, s);
    XorCancels(t2, t2);
    XorZero(s);
    XorCommutes(s, 0);
    assert Xor(Xor(b, Xor(t2, s)), t2) == Xor(b, s);
    XorAssociates(b, s, Xor(t1, s));
    XorCommutes(t1, s);
    XorAssociates(s, s, t1);
    XorCancels(s, s);
    XorZero(t1);
    XorCommutes(t1, 0);
    XorAssociates(a, t1, t1);
    XorCancels(t1, t1);
    XorZero(a);
  }

  /** The state of the inner loop: memory, random numbers, collected bytes and running sum. */
  datatype Mix<R> = Mix(m: seq<byte>, rand: R, b: seq<byte>, r: nat) {
    ghost predicate Fits()
    {
      |m| == WORK_MEMORY_SIZE && |b| == 64
    }
  }

  /** One exchange of two bytes of the memory, each masked with the byte s. */
  function Exchanged(m: seq<byte>, x: nat, y: nat, s: byte): seq<byte>
    requires x < |m| && y < |m|
  {
    m[x := XorByte(m[y], s)][y := XorByte(m[x], s)]
  }

  function MixStep<R>(o: Oracle<R>, a: seq<byte>, j: nat, x: Mix<R>): (y: Mix<R>)
    requires x.Fits() && |a| == OUTPUT_LEN
    ensures y.Fits()
  {
    var (rand, num) := o.next(x.rand);
    var s, base, offset := a[j % 32], U64(num + x.r), OffsetOf(x.r);
    AddressesDiffer(base, offset);
    var addr1, addr2 := FirstAddress(base, offset), SecondAddress(base, offset);
    var t1, t2 := x.m[addr1], x.m[addr2];
    Mix(Exchanged(x.m, addr1, addr2, s), rand, x.b[j % 64 := XorByte(t1, t2)], U64(x.r + s + t1 + t2))
  }

  ghost function Mixed<R>(o: Oracle<R>, a: seq<byte>, n: nat, x: Mix<R>): (y: Mix<R>)
    requires x.Fits() && |a| == OUTPUT_LEN
    ensures y.Fits()
  {
    if n == 0 then x else MixStep(o, a, n - 1, Mixed(o, a, n - 1, x))
  }

  lemma MixStepKeeps<R>(o: Oracle<R>, a: seq<byte>, j: nat, x: Mix<R>)
    requires x.Fits() && |a| == OUTPUT_LEN
    ensures XorAll(MixStep(o, a, j, x).m) == XorAll(x.m)
  {
    hide XorAll, XorByte, FirstAddress, SecondAddress, OffsetOf, U64;
    var base, offset := U64(o.next(x.rand).1 + x.r), OffsetOf(x.r);
    AddressesDiffer(base, offset);
    XorPair(x.m, FirstAddress(base, offset), SecondAddress(base, offset), a[j % 32]);
  }

  /** Any number of exchanges keeps the exclusive or of the memory. */
  lemma {:induction false} MixingKeeps<R>(o: Oracle<R>, a: seq<byte>, n: nat, x: Mix<R>)
    requires x.Fits() && |a| == OUTPUT_LEN
    ensures XorAll(Mixed(o, a, n, x).m) == XorAll(x.m)
  {
    hide XorAll, MixStep;
    if n > 0 {
      MixingKeeps(o, a, n - 1, x);
      MixStepKeeps(o, a, n - 1, Mixed(o, a, n - 1, x));
    }
  }

  lemma StepForgets<R>(o: Oracle<R>, a: seq<byte>, j: nat, x: Mix<R>, y: Mix<R>)
    requires x.Fits() && y.Fits() && |a| == OUTPUT_LEN && x.m == y.m && x.rand == y.rand && x.r == y.r
    ensures var x', y' := MixStep(o, a, j, x), MixStep(o, a, j, y);
      && x'.m == y'.m && x'.rand == y'.rand && x'.r == y'.r && x'.b[j % 64] == y'.b[j % 64]
      && forall k :: 0 <= k < 64 && k != j % 64 ==> x'.b[k] == x.b[k] && y'.b[k] == y.b[k]
  {
    hide XorByte, FirstAddress, SecondAddress, OffsetOf, U64, Exchanged;
  }

  /** What the byte buffer held before is overwritten, byte by byte, and nothing else depends on it. */
  lemma {:induction false} MixingForgets<R>(o: Oracle<R>, a: seq<byte>, n: nat, x: Mix<R>, b: seq<byte>)
    requires x.Fits() && |a| == OUTPUT_LEN && |b| == 64
    ensures var y, z := Mixed(o, a, n, x), Mixed(o, a, n, x.(b := b));
      y.m == z.m && y.rand == z.rand && y.r == z.r && forall k :: 0 <= k < 64 && k < n ==> y.b[k] == z.b[k]
  {
    hide MixStep;
    if n > 0 {
      MixingForgets(o, a, n - 1, x, b);
      StepForgets(o, a, n - 1, Mixed(o, a, n - 1, x), Mixed(o, a, n - 1, x.(b := b)));
    }
  }

  /** The inner loop, in place. */
  method MixRound<R>(o: Oracle<R>, m: array<byte>, a: seq<byte>, iterNum: nat, state: R, b0: seq<byte>, r0: nat)
    returns (b: seq<byte>, r: nat)
    requires m.Length == WORK_MEMORY_SIZE && |a| == OUTPUT_LEN && |b0| == 64
    modifies m
    ensures var y := Mixed(o, a, iterNum, Mix(old(m[..]), state, b0, r0));
      m[..] == y.m && b == y.b && r == y.r
  {
    hide XorByte, FirstAddress, SecondAddress, OffsetOf, U64, Mixed;
    var rand := state;
    b := b0;
    r := r0;
    ghost var x := Mix(m[..], rand, b, r);
    MixedStep(o, a, 0, x);
    var j: nat := 0;
    while j < iterNum
      invariant j <= iterNum && Mix(m[..], rand, b, r) == Mixed(o, a, j, x)
    {
      MixedStep(o, a, j, x);
      var (next, randNum) := o.next(rand);
      var base, offset := U64(randNum + r), OffsetOf(r);
      AddressesDiffer(base, offset);
      var addr1, addr2 := FirstAddress(base, offset), SecondAddress(base, offset);
      var t1, t2, s := m[addr1], m[addr2], a[j % 32];
      m[addr1] := XorByte(t2, s);
      m[addr2] := XorByte(t1, s);
      b := b[j % 64 := XorByte(t1, t2)];
      r := U64(r + s + t1 + t2);
      rand := next;
      j := j + 1;
    }
  }

  lemma MixedStep<R>(o: Oracle<R>, a: seq<byte>, j: nat, x: Mix<R>)
    requires x.Fits() && |a| == OUTPUT_LEN
    ensures Mixed(o, a, 0, x) == x
    ensures Mixed(o, a, j + 1, x) == MixStep(o, a, j, Mixed(o, a, j, x))
  {
  }

  /** The state of the outer loop: memory, last digest, byte buffer, running sum and result. */
  datatype Pass = Pass(m: seq<byte>, a: seq<byte>, b: seq<byte>, r: nat, result: seq<byte>) {
    ghost predicate Fits()
    {
      |m| == WORK_MEMORY_SIZE && |a| == |result| == OUTPUT_LEN && |b| == 64
    }
  }

  ghost function StartOf<R>(o: Oracle<R>, p: Pass): (x: Mix<R>)
    requires p.Fits()
    ensures x.Fits()
  {
    Mix(p.m, o.seed(FromLittleEndian(Folded(p.a, 6))), p.b, p.r)
  }

  ghost function PassStep<R>(o: Oracle<R>, iterNum: nat, i: nat, p: Pass): (q: Pass)
    requires o.Lawful() && p.Fits()
    ensures q.Fits()
  {
    var y := Mixed(o, p.a, iterNum, StartOf(o, p));
    var t, shift := Selector(FoldByte(LittleEndian(8, y.r))), FoldByte(LittleEndian(8, U64(y.r + i)));
    var a := o.func(t, Rotated(Folded(y.b, 32), shift));
    Pass(y.m, a, y.b, y.r, XorBytes(p.result, a))
  }

  ghost function Passes<R>(o: Oracle<R>, iterNum: nat, n: nat, p: Pass): (q: Pass)
    requires o.Lawful() && p.Fits()
    ensures q.Fits()
  {
    if n == 0 then p else PassStep(o, iterNum, n - 1, Passes(o, iterNum, n - 1, p))
  }

  lemma {:induction false} PassesKeep<R>(o: Oracle<R>, iterNum: nat, n: nat, p: Pass)
    requires o.Lawful() && p.Fits()
    ensures XorAll(Passes(o, iterNum, n, p).m) == XorAll(p.m)
  {
    hide XorAll, Mixed, Rotated, Folded, LittleEndian, FromLittleEndian, XorBytes, FoldByte, U64;
    if n > 0 {
      var q := Passes(o, iterNum, n - 1, p);
      PassesKeep(o, iterNum, n - 1, p);
      MixingKeeps(o, q.a, iterNum, StartOf(o, q));
    }
  }

  /** At least 64 exchanges overwrite the whole buffer. */
  lemma BufferIsOverwritten<R>(o: Oracle<R>, iterNum: nat, i: nat, p: Pass, b: seq<byte>)
    requires o.Lawful() && p.Fits() && |b| == 64 && iterNum >= 64
    ensures PassStep(o, iterNum, i, p.(b := b)) == PassStep(o, iterNum, i, p)
  {
    hide Mixed, Rotated, Folded, LittleEndian, FromLittleEndian, XorBytes, FoldByte, U64, Selector;
    var x := StartOf(o, p);
    MixingForgets(o, p.a, iterNum, x, b);
    assert StartOf(o, p.(b := b)) == x.(b := b);
    assert Mixed(o, p.a, iterNum, x).b == Mixed(o, p.a, iterNum, x.(b := b)).b;
  }

  /** The memory and the result do not depend on what the buffer held at first, unless there are no exchanges. */
  lemma {:induction false} PassesForget<R>(o: Oracle<R>, iterNum: nat, n: nat, p: Pass, b: seq<byte>)
    requires o.Lawful() && p.Fits() && |b| == 64 && iterNum >= 64
    ensures var q, q' := Passes(o, iterNum, n, p), Passes(o, iterNum, n, p.(b := b));
      q.m == q'.m && q.a == q'.a && q.r == q'.r && q.result == q'.result && (n > 0 ==> q.b == q'.b)
  {
    hide PassStep;
    if n > 0 {
      PassesForget(o, iterNum, n - 1, p, b);
      var q, q' := Passes(o, iterNum, n - 1, p), Passes(o, iterNum, n - 1, p.(b := b));
      BufferIsOverwritten(o, iterNum, n - 1, q, q'.b);
      assert q' == q.(b := q'.b);
    }
  }

  ghost function FirstPass<R>(o: Oracle<R>, m: seq<byte>, b: seq<byte>): (p: Pass)
    requires o.Lawful() && |m| == WORK_MEMORY_SIZE && |b| == 64
    ensures p.Fits()
  {
    var a := o.func(0, m[WORK_MEMORY_SIZE - 32..]);
    Pass(m, a, b, FromLittleEndian(Folded(a, 8)), a)
  }

  lemma PassesStep<R>(o: Oracle<R>, iterNum: nat, n: nat, p: Pass)
    requires o.Lawful() && p.Fits()
    ensures Passes(o, iterNum, 0, p) == p
    ensures Passes(o, iterNum, n + 1, p) == PassStep(o, iterNum, n, Passes(o, iterNum, n, p))
  {
  }

  /** The number of exchanges of one pass, a 32-bit number. */
  function Exchanges(L: nat): nat
  {
    L * 64 % WORD
  }

  /** There are none, or enough to overwrite the buffer. */
  lemma NoneOrEnough(L: nat)
    ensures Exchanges(L) == 0 <==> L % 0x400_0000 == 0
    ensures Exchanges(L) == 0 || Exchanges(L) >= 64
  {
  }

  /**
  The whole modification keeps the exclusive or of the memory, whatever the functions, the
  random numbers and the first contents of the byte buffer are.
  */
  method ModifyWorkMemory<R>(o: Oracle<R>, m: array<byte>, L: nat, C: nat, b0: seq<byte>) returns (result: seq<byte>)
    requires o.Lawful() && m.Length == WORK_MEMORY_SIZE && |b0| == 64
    modifies m
    ensures var p := Passes(o, Exchanges(L), C, FirstPass(o, old(m[..]), b0));
      m[..] == p.m && result == p.result
    ensures XorAll(m[..]) == old(XorAll(m[..]))
  {
    hide XorAll, Folded, LittleEndian, FromLittleEndian, Rotated, FoldByte, Mixed, Passes, XorBytes, U64, Selector,
      Exchanges;
    var iterNum := Exchanges(L);
    ghost var p := FirstPass(o, m[..], b0);
    PassesKeep(o, iterNum, C, p);
    PassesStep(o, iterNum, 0, p);
    var a := o.func(0, m[WORK_MEMORY_SIZE - 32..]);
    result := a;
    var bytes := ReduceBit(a, 64);
    var b := b0;
    var r: nat := FromLittleEndian(bytes);
    var i: nat := 0;
    while i < C
      invariant i <= C && |b| == 64 && Pass(m[..], a, b, r, result) == Passes(o, iterNum, i, p)
    {
      PassesStep(o, iterNum, i, p);
      var seed := ReduceBit(a, 48);
      b, r := MixRound(o, m, a, iterNum, o.seed(FromLittleEndian(seed)), b, r);
      var t := ReduceToByte(LittleEndian(8, r));
      a := ReduceBit(b, 256);
      var shift := ReduceToByte(LittleEndian(8, U64(r + i)));
      var rotated := Rrs(a, shift);
      a := o.func(Selector(t), rotated);
      result := XorBytes(result, a);
      i := i + 1;
    }
  }

  /** Two first contents of the byte buffer make no difference to the memory and the result. */
  ghost predicate Agree<R>(o: Oracle<R>, m: seq<byte>, L: nat, C: nat, b: seq<byte>, b': seq<byte>)
    requires o.Lawful() && |m| == WORK_MEMORY_SIZE && |b| == |b'| == 64
  {
    var p, p' := FirstPass(o, m, b), FirstPass(o, m, b');
    var q, q' := Passes(o, Exchanges(L), C, p), Passes(o, Exchanges(L), C, p');
    q.m == q'.m && q.result == q'.result
  }

  /** With at least one exchange the result is a function of the memory alone. */
  lemma ResultIsDetermined<R>(o: Oracle<R>, m: seq<byte>, L: nat, C: nat, b: seq<byte>, b': seq<byte>)
    requires o.Lawful() && |m| == WORK_MEMORY_SIZE && |b| == |b'| == 64 && L % 0x400_0000 != 0
    ensures Agree(o, m, L, C, b, b')
  {
    hide Passes, Exchanges, Folded;
    NoneOrEnough(L);
    PassesForget(o, Exchanges(L), C, FirstPass(o, m, b), b');
    assert FirstPass(o, m, b') == FirstPass(o, m, b).(b := b');
  }

  // ---------------------------------------------------------------- the final result

  /** All rows but the last. */
  const ROWS: nat := WORK_MEMORY_SIZE / 32 - 1

  /** How many rows a round takes: a folded number of D / 8 bytes plus one, in 32 bits. */
  function RowsPerRound(result: seq<byte>, D: nat): nat
    requires 8 <= D <= 32 && |result| == OUTPUT_LEN
  {
    (FromLittleEndian(Folded(result, D / 8)) + 1) % WORD
  }

  lemma SmallFold(result: seq<byte>, D: nat)
    requires 8 <= D < 32 && |result| == OUTPUT_LEN
    ensures 0 < RowsPerRound(result, D) <= 0x100_0000
  {
    hide Folded, FromLittleEndian, LittleEndian, Pow;
    LittleEndianOf(Folded(result, D / 8));
    PowMonotone(256, D / 8, 3);
    ThreeBytes();
  }

  lemma ThreeBytes()
    ensures Pow(256, 3) == 0x100_0000
  {
  }

  /** The memory's row i. */
  function Row(m: seq<byte>, i: nat): seq<byte>
    requires 32 * i + 32 <= |m|
  {
    m[32 * i..32 * i + 32]
  }

  /** The result with n rows from row i on mixed in, in order. */
  function WithRows(m: seq<byte>, i: nat, n: nat, result: seq<byte>): (r: seq<byte>)
    requires |result| == OUTPUT_LEN && 32 * (i + n) <= |m|
    ensures |r| == OUTPUT_LEN
    decreases n
  {
    if n == 0 then result else XorBytes(WithRows(m, i, n - 1, result), Row(m, i + n - 1))
  }

  /** What a round makes of the result: rotation by the folded row count and selector, then a one-way function. */
  function Scrambled<R>(o: Oracle<R>, t: nat, f: Selection, i: nat, result: seq<byte>): seq<byte>
    requires |result| == OUTPUT_LEN
  {
    o.func(f, Rotated(result, FoldByte(LittleEndian(4, i + t))))
  }

  /** The final result from row i on, if it is reached within the given number of rounds. */
  ghost function FinalWithin<R>(o: Oracle<R>, m: seq<byte>, D: nat, rounds: nat, i: nat, result: seq<byte>)
    : Option<seq<byte>>
    requires o.Lawful() && 8 <= D <= 32 && |m| == WORK_MEMORY_SIZE && i < ROWS && |result| == OUTPUT_LEN
    decreases rounds
  {
    var t, d := Selector(FoldByte(result)), RowsPerRound(result, D);
    if rounds == 0 then None
    else if i + d >= ROWS then Some(Scrambled(o, t, 0, ROWS, WithRows(m, i, ROWS - i, result)))
    else FinalWithin(o, m, D, rounds - 1, i + d, Scrambled(o, t, t, i + d, WithRows(m, i, d, result)))
  }

  /** One row, byte by byte. */
  method MixRow(m: array<byte>, i: nat, result: seq<byte>) returns (r: seq<byte>)
    requires 32 * i + 32 <= m.Length && |result| == OUTPUT_LEN
    ensures r == XorBytes(result, Row(m[..], i))
  {
    hide XorByte;
    r := result;
    var k := 0;
    while k < 32
      invariant 0 <= k <= 32 && |r| == 32
      invariant forall j :: 0 <= j < 32 ==> r[j] == if j < k then XorByte(result[j], m[32 * i + j]) else result[j]
    {
      r := r[k := XorByte(r[k], m[32 * i + k])];
      k := k + 1;
    }
  }

  /** Walks over all rows but the last, each exactly once and in order, whenever the walk ends at all. */
  method CalculateFinalResult<R>(o: Oracle<R>, m: array<byte>, c: seq<byte>, D: nat, ghost rounds: nat)
    returns (result: seq<byte>, ghost read: seq<nat>)
    requires o.Lawful() && m.Length == WORK_MEMORY_SIZE && |c| == OUTPUT_LEN && 8 <= D <= 32
    requires FinalWithin(o, m[..], D, rounds, 0, c).Some?
    ensures FinalWithin(o, m[..], D, rounds, 0, c) == Some(result)
    ensures read == seq(ROWS, i => i)
  {
    hide XorByte, XorAll, Folded, LittleEndian, FromLittleEndian, Rotated, FoldByte, Selector, WithRows;
    hide FinalWithin, Row, XorBytes;
    result := c;
    read := [];
    var i: nat := 0;
    ghost var left := rounds;
    while true
      invariant i < ROWS && |result| == OUTPUT_LEN && read == seq(i, k => k)
      invariant FinalWithin(o, m[..], D, left, i, result) == FinalWithin(o, m[..], D, rounds, 0, c)
      decreases left
    {
      var fold := ReduceToByte(result);
      var t := Selector(fold);
      var folded := ReduceBit(result, D);
      var d := (FromLittleEndian(folded) + 1) % WORD;
      ghost var i0, result0 := i, result;
      FinalStep(o, m[..], D, left, i0, result0);
      var j := 0;
      NoRows(m[..], i0, result0);
      while j < d
        invariant 0 <= j <= d && i == i0 + j < ROWS && |result| == OUTPUT_LEN && read == seq(i, k => k)
        invariant result == WithRows(m[..], i0, j, result0)
      {
        NextRow(m[..], i0, j, result0);
        result := MixRow(m, i, result);
        read := read + [i];
        i := i + 1;
        j := j + 1;
        if i == ROWS {
          var shift := ReduceToByte(LittleEndian(4, i + t));
          var rotated := Rrs(result, shift);
          result := o.func(0, rotated);
          return;
        }
      }
      var shift := ReduceToByte(LittleEndian(4, t + i));
      var rotated := Rrs(result, shift);
      result := o.func(t, rotated);
      left := left - 1;
    }
  }

  lemma NoRows(m: seq<byte>, i: nat, result: seq<byte>)
    requires |result| == OUTPUT_LEN && 32 * i <= |m|
    ensures WithRows(m, i, 0, result) == result
  {
  }

  lemma NextRow(m: seq<byte>, i: nat, n: nat, result: seq<byte>)
    requires |result| == OUTPUT_LEN && 32 * (i + n + 1) <= |m|
    ensures WithRows(m, i, n + 1, result) == XorBytes(WithRows(m, i, n, result), Row(m, i + n))
  {
  }

  lemma FinalStep<R>(o: Oracle<R>, m: seq<byte>, D: nat, rounds: nat, i: nat, result: seq<byte>)
    requires o.Lawful() && 8 <= D <= 32 && |m| == WORK_MEMORY_SIZE && i < ROWS && |result| == OUTPUT_LEN
    ensures FinalWithin(o, m, D, 0, i, result) == None
    ensures rounds > 0 ==>
      var t, d := Selector(FoldByte(result)), RowsPerRound(result, D);
      FinalWithin(o, m, D, rounds, i, result) ==
        if i + d >= ROWS then Some(Scrambled(o, t, 0, ROWS, WithRows(m, i, ROWS - i, result)))
        else FinalWithin(o, m, D, rounds - 1, i + d, Scrambled(o, t, t, i + d, WithRows(m, i, d, result)))
  {
  }

  /** Allowing more rounds makes no difference to a walk that ends. */
  lemma {:induction false} MoreRounds<R>(o: Oracle<R>, m: seq<byte>, D: nat, rounds: nat, i: nat, result: seq<byte>)
    requires o.Lawful() && 8 <= D <= 32 && |m| == WORK_MEMORY_SIZE && i < ROWS && |result| == OUTPUT_LEN
    requires FinalWithin(o, m, D, rounds, i, result).Some?
    ensures FinalWithin(o, m, D, rounds + 1, i, result) == FinalWithin(o, m, D, rounds, i, result)
    decreases rounds
  {
    hide FinalWithin, WithRows, RowsPerRound, FoldByte, Selector;
    var t, d := Selector(FoldByte(result)), RowsPerRound(result, D);
    FinalStep(o, m, D, rounds, i, result);
    FinalStep(o, m, D, rounds + 1, i, result);
    if i + d < ROWS {
      MoreRounds(o, m, D, rounds - 1, i + d, Scrambled(o, t, t, i + d, WithRows(m, i, d, result)));
    }
  }

  /** With a width below 32 bits every round takes a row, so the walk ends. */
  lemma {:induction false} WalkEnds<R>(o: Oracle<R>, m: seq<byte>, D: nat, rounds: nat, i: nat, result: seq<byte>)
    requires o.Lawful() && 8 <= D < 32 && |m| == WORK_MEMORY_SIZE && i < ROWS && |result| == OUTPUT_LEN
    requires rounds >= ROWS - i
    ensures FinalWithin(o, m, D, rounds, i, result).Some?
    decreases rounds
  {
    hide FinalWithin, WithRows, RowsPerRound, FoldByte, Selector;
    var t, d := Selector(FoldByte(result)), RowsPerRound(result, D);
    SmallFold(result, D);
    FinalStep(o, m, D, rounds, i, result);
    if i + d < ROWS {
      WalkEnds(o, m, D, rounds - 1, i + d, Scrambled(o, t, t, i + d, WithRows(m, i, d, result)));
    }
  }

  lemma {:induction false} FoldedZeros(s: seq<byte>, n: nat, k: nat)
    requires n > 0
    ensures Folded(s + seq(k, _ => 0), n) == Folded(s, n)
    decreases k
  {
    hide Column, XorByte;
    var t: seq<byte> := s + seq(k, _ => 0);
    if k == 0 {
      assert t == s;
    } else {
      FoldedZeros(s, n, k - 1);
      FoldedStep(t, n);
      assert t[..|t| - 1] == s + seq(k - 1, _ => 0);
      XorNothing(Folded(s, n)[(|t| - 1) % n]);
    }
  }

  lemma XorNothing(x: byte)
    ensures XorByte(x, 0) == x
  {
    XorZero(x);
  }

  /** A full word of ones, which makes a row count of 32 bits wrap to zero. */
  function Stuck(): (r: seq<byte>)
    ensures |r| == OUTPUT_LEN
  {
    [255, 255, 255, 255] + seq(28, _ => 0)
  }

  lemma StuckTakesNoRow()
    ensures RowsPerRound(Stuck(), 32) == 0
  {
    hide Column, Folded;
    var ones: seq<byte> := [255, 255, 255, 255];
    FoldedZeros(ones, 4, 28);
    FoldedStart(ones, 4);
    assert ones[..4] == ones;
    assert FromLittleEndian(ones) == 0xFFFF_FFFF;
  }

  /** One-way functions that always give this result. */
  function Constant(): (o: Oracle<int>)
    ensures o.Lawful()
  {
    Oracle((t, x) => Stuck(), n => 0, r => (r, 0))
  }

  lemma {:induction false} WalkNeverEnds(m: seq<byte>, rounds: nat)
    requires |m| == WORK_MEMORY_SIZE
    ensures FinalWithin(Constant(), m, 32, rounds, 0, Stuck()) == None
    decreases rounds
  {
    hide FinalWithin, RowsPerRound, FoldByte, Selector, Stuck, LittleEndian, Rotated;
    FinalStep(Constant(), m, 32, rounds, 0, Stuck());
    StuckTakesNoRow();
    if rounds > 0 {
      WalkNeverEnds(m, rounds - 1);
    }
  }

  ghost predicate Ends(o: Oracle<int>, m: seq<byte>, D: nat, c: seq<byte>)
    requires o.Lawful() && 8 <= D <= 32 && |m| == WORK_MEMORY_SIZE && |c| == OUTPUT_LEN
  {
    exists rounds: nat :: FinalWithin(o, m, D, rounds, 0, c).Some?
  }

  /** The walk ends for all functions, memories and first results. */
  ghost predicate AlwaysEnds(D: nat)
    requires 8 <= D <= 32
  {
    forall o: Oracle<int>, m: seq<byte>, c: seq<byte> ::
      o.Lawful() && |m| == WORK_MEMORY_SIZE && |c| == OUTPUT_LEN ==> Ends(o, m, D, c)
  }

  /** That is so exactly when the width is below 32. */
  lemma EndsExactly(D: nat)
    requires 8 <= D <= 32
    ensures AlwaysEnds(D) <==> D < 32
  {
    hide FinalWithin;
    if D < 32 {
      forall o: Oracle<int>, m: seq<byte>, c: seq<byte> | o.Lawful() && |m| == WORK_MEMORY_SIZE && |c| == OUTPUT_LEN
        ensures Ends(o, m, D, c)
      {
        WalkEnds(o, m, D, ROWS, 0, c);
      }
    } else {
      var m: seq<byte> := seq(WORK_MEMORY_SIZE, _ => 0);
      forall rounds: nat ensures FinalWithin(Constant(), m, 32, rounds, 0, Stuck()) == None {
        WalkNeverEnds(m, rounds);
      }
      assert !Ends(Constant(), m, 32, Stuck());
    }
  }

  /** Every round makes progress exactly when the width is below 32. */
  lemma ProgressExactly(D: nat)
    requires 8 <= D <= 32
    ensures (forall result: seq<byte> :: |result| == OUTPUT_LEN ==> RowsPerRound(result, D) > 0) <==> D < 32
  {
    if D < 32 {
      forall result: seq<byte> | |result| == OUTPUT_LEN ensures RowsPerRound(result, D) > 0 {
        SmallFold(result, D);
      }
    } else {
      StuckTakesNoRow();
    }
  }

  // ---------------------------------------------------------------- without exchanges

  lemma {:induction false} BitsDecide(x: nat, y: nat, n: nat)
    requires x < Pow2(n) && y < Pow2(n) && forall k :: 0 <= k < n ==> (BitOf(x, k) <==> BitOf(y, k))
    ensures x == y
    decreases n
  {
    if n > 0 {
      assert BitOf(x, 0) <==> BitOf(y, 0);
      forall k | 0 <= k < n - 1 ensures BitOf(x / 2, k) <==> BitOf(y / 2, k) {
        assert BitOf(x, k + 1) <==> BitOf(y, k + 1);
      }
      BitsDecide(x / 2, y / 2, n - 1);
    }
  }

  /** Rotation loses nothing. */
  lemma RotationIsInjective(x: seq<byte>, y: seq<byte>, bits: nat)
    requires 0 < |x| == |y| && bits / 8 < |x| && Rotated(x, bits) == Rotated(y, bits)
    ensures x == y
  {
    hide Rotated, BitOf, Pow;
    EightBits();
    forall i | 0 <= i < |x| ensures x[i] == y[i] {
      forall k | 0 <= k < 8 ensures BitOf(x[i], k) <==> BitOf(y[i], k) {
        SameBit(x, y, bits, i, k);
      }
      BitsDecide(x[i], y[i], 8);
    }
  }

  lemma SameBit(x: seq<byte>, y: seq<byte>, bits: nat, i: nat, k: nat)
    requires 0 < |x| == |y| && bits / 8 < |x| && Rotated(x, bits) == Rotated(y, bits) && i < |x| && k < 8
    ensures BitOf(x[i], k) <==> BitOf(y[i], k)
  {
    hide Rotated, BitOf;
    var q := 8 * i + 7 - k;
    var p := if q + bits < 8 * |x| then q + bits else q + bits - 8 * |x|;
    RotationMovesBits(x, bits, p);
    RotationMovesBits(y, bits, p);
    assert q / 8 == i && 7 - q % 8 == k;
  }

  lemma XorBytesInjective(r: seq<byte>, x: seq<byte>, y: seq<byte>)
    requires |r| == |x| == |y| && XorBytes(r, x) == XorBytes(r, y)
    ensures x == y
  {
    hide Xor;
    forall i | 0 <= i < |x| ensures x[i] == y[i] {
      assert XorBytes(r, x)[i] == XorBytes(r, y)[i];
      XorAssociates(r[i], r[i], x[i]);
      XorAssociates(r[i], r[i], y[i]);
      XorCancels(r[i], r[i]);
      XorZero(x[i]);
      XorZero(y[i]);
      XorCommutes(0, x[i]);
      XorCommutes(0, y[i]);
    }
  }

  /** One-way functions that return their input, for showing what a result depends on. */
  function Transparent(): (o: Oracle<int>)
    ensures o.Lawful()
  {
    Oracle((t, x) => if |x| == OUTPUT_LEN then x else seq(OUTPUT_LEN, _ => 0), n => 0, r => (r, 0))
  }

  /** Without exchanges the first pass digests what the buffer happened to hold. */
  lemma ResultDepends(L: nat, m: seq<byte>, b: seq<byte>, b': seq<byte>)
    requires |m| == WORK_MEMORY_SIZE && |b| == |b'| == 64 && L % 0x400_0000 == 0 && Folded(b, 32) != Folded(b', 32)
    ensures !Agree(Transparent(), m, L, 1, b, b')
  {
    hide Rotated, Folded, LittleEndian, FromLittleEndian, XorBytes, FoldByte, U64, Selector, Pow, Exchanges;
    NoneOrEnough(L);
    var o := Transparent();
    var p, p' := FirstPass(o, m, b), FirstPass(o, m, b');
    PassesStep(o, 0, 0, p);
    PassesStep(o, 0, 0, p');
    var q, q' := PassStep(o, 0, 0, p), PassStep(o, 0, 0, p');
    var shift := FoldByte(LittleEndian(8, U64(p.r + 0)));
    assert q.a == Rotated(Folded(b, 32), shift) && q'.a == Rotated(Folded(b', 32), shift);
    if q.result == q'.result {
      XorBytesInjective(p.result, q.a, q'.a);
      RotationIsInjective(Folded(b, 32), Folded(b', 32), shift);
    }
  }

  /** Two buffers that fold differently. */
  lemma DifferentFolds() returns (b: seq<byte>, b': seq<byte>)
    ensures |b| == |b'| == 64 && Folded(b, 32) != Folded(b', 32)
  {
    hide Folded;
    var row, row': seq<byte> := seq(32, _ => 0), [1] + seq(31, _ => 0);
    b, b' := row + seq(32, _ => 0), row' + seq(32, _ => 0);
    FoldedZeros(row, 32, 32);
    FoldedZeros(row', 32, 32);
    FoldedStart(row, 32);
    FoldedStart(row', 32);
    assert row[..32] == row && row'[..32] == row';
    assert row[0] != row'[0];
  }

  /** The memory and the result never depend on what the buffer held at first. */
  ghost predicate Determined(L: nat)
  {
    forall o: Oracle<int>, m: seq<byte>, C: nat, b: seq<byte>, b': seq<byte> ::
      o.Lawful() && |m| == WORK_MEMORY_SIZE && |b| == |b'| == 64 ==> Agree(o, m, L, C, b, b')
  }

  /** That is so exactly when the number of exchanges does not wrap to zero. */
  lemma DeterminedExactly(L: nat)
    ensures Determined(L) <==> L % 0x400_0000 != 0
  {
    hide Agree, Folded;
    if L % 0x400_0000 != 0 {
      forall o: Oracle<int>, m: seq<byte>, C: nat, b: seq<byte>, b': seq<byte>
        | o.Lawful() && |m| == WORK_MEMORY_SIZE && |b| == |b'| == 64
        ensures Agree(o, m, L, C, b, b')
      {
        ResultIsDetermined(o, m, L, C, b, b');
      }
    } else {
      var b, b' := DifferentFolds();
      var m: seq<byte> := seq(WORK_MEMORY_SIZE, _ => 0);
      ResultDepends(L, m, b, b');
    }
  }
}
