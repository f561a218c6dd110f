/**
Serialization of CCoins: version, header code, the unspentness bitmask without its
trailing zero bytes, the unspent outputs and the height.
*/
module CoinsCodec {
  import opened Numbers
  import opened Bits
  import opened Results
  import opened Coins
  import opened VarInt
  import opened Amounts
  import opened Compressor

  // ---------------------------------------------------------------- the unspentness mask

  predicate Unspent(vout: seq<TxOut>, i: nat)
  {
    i < |vout| && !vout[i].IsNull()
  }

  /** `k` availability bits from output `at` on, the first in the lowest place. */
  function MaskFrom(vout: seq<TxOut>, at: nat, k: nat): (n: nat)
    ensures n < Pow2(k)
    ensures n == 0 <==> forall i :: at <= i < at + k ==> !Unspent(vout, i)
    decreases k
  {
    if k == 0 then 0 else (if Unspent(vout, at) then 1 else 0) + 2 * MaskFrom(vout, at + 1, k - 1)
  }

  /** Mask byte `b`; the first two outputs are not part of the mask. */
  function MaskByte(vout: seq<TxOut>, b: nat): byte
  {
    assert Pow2(8) == 256;
    MaskFrom(vout, 2 + 8 * b, 8)
  }

  function Mask(vout: seq<TxOut>, n: nat): (bs: seq<byte>)
    ensures |bs| == n
  {
    seq(n, b requires 0 <= b < n => MaskByte(vout, b))
  }

  /** How many mask bytes it takes to cover all outputs. */
  function MaskLength(vout: seq<TxOut>): nat
  {
    if |vout| <= 2 then 0 else (|vout| - 2 + 7) / 8
  }

  function TrimZeros(bs: seq<byte>): (r: seq<byte>)
    ensures r <= bs && (r == [] || r[|r| - 1] != 0)
    ensures forall i :: |r| <= i < |bs| ==> bs[i] == 0
  {
    if bs != [] && bs[|bs| - 1] == 0 then TrimZeros(bs[..|bs| - 1]) else bs
  }

  function NonZeros(bs: seq<byte>): nat
  {
    if bs == [] then 0 else NonZeros(bs[..|bs| - 1]) + (if bs[|bs| - 1] != 0 then 1 else 0)
  }

  function UnpackBits(bs: seq<byte>): (bits: seq<bool>)
    ensures |bits| == 8 * |bs|
  {
    seq(8 * |bs|, i requires 0 <= i < 8 * |bs| => BitOf(bs[i / 8], i % 8))
  }

  lemma {:induction false} MaskBit(vout: seq<TxOut>, at: nat, k: nat, p: nat)
    requires p < k
    ensures BitOf(MaskFrom(vout, at, k), p) <==> Unspent(vout, at + p)
    decreases k
  {
    if p > 0 {
      MaskBit(vout, at + 1, k - 1, p - 1);
      assert MaskFrom(vout, at, k) / 2 == MaskFrom(vout, at + 1, k - 1);
    }
  }

  /** What a mask bit means, in the terms of the reader. */
  lemma UnpackedBit(vout: seq<TxOut>, n: nat, i: nat)
    requires i < 8 * n
    ensures UnpackBits(Mask(vout, n))[i] <==> Unspent(vout, 2 + i)
  {
    MaskBit(vout, 2 + 8 * (i / 8), 8, i % 8);
  }

  /** The writer's last mask byte stands for the last unspent output beyond the first two. */
  lemma TrimmedMask(vout: seq<TxOut>)
    ensures var n := |TrimZeros(Mask(vout, MaskLength(vout)))|;
      && TrimZeros(Mask(vout, MaskLength(vout))) == Mask(vout, n)
      && forall i :: 2 + 8 * n <= i < |vout| ==> vout[i].IsNull()
  {
    var m := Mask(vout, MaskLength(vout));
    var n := |TrimZeros(m)|;
    forall i | 2 + 8 * n <= i < |vout| ensures vout[i].IsNull() {
      var b := (i - 2) / 8;
      assert m[b] == 0;
      assert !Unspent(vout, i);
    }
  }

  lemma MaskStep(vout: seq<TxOut>, n: nat)
    ensures Mask(vout, n + 1) == Mask(vout, n) + [MaskByte(vout, n)]
    ensures TrimZeros(Mask(vout, n + 1))
         == if MaskByte(vout, n) == 0 then TrimZeros(Mask(vout, n)) else Mask(vout, n + 1)
    ensures NonZeros(Mask(vout, n + 1)) == NonZeros(Mask(vout, n)) + (if MaskByte(vout, n) == 0 then 0 else 1)
  {
    hide MaskByte;
    var a, z := Mask(vout, n), Mask(vout, n + 1);
    assert z == a + [MaskByte(vout, n)];
    assert z[..n] == a;
  }

  lemma {:induction false} NonZerosBound(bs: seq<byte>)
    ensures NonZeros(bs) <= |bs|
    ensures NonZeros(bs) == 0 <==> forall i :: 0 <= i < |bs| ==> bs[i] == 0
  {
    if bs != [] {
      NonZerosBound(bs[..|bs| - 1]);
    }
  }

  lemma {:induction false} NonZerosOfTrimmed(bs: seq<byte>)
    ensures NonZeros(TrimZeros(bs)) == NonZeros(bs)
  {
    if bs != [] && bs[|bs| - 1] == 0 {
      NonZerosOfTrimmed(bs[..|bs| - 1]);
    }
  }

  method ByteIsZero(vout: seq<TxOut>, b: nat) returns (fZero: bool)
    ensures fZero <==> MaskByte(vout, b) == 0
  {
    fZero := true;
    var i := 0;
    while i < 8 && 2 + b * 8 + i < |vout|
      invariant i <= 8
      invariant fZero <==> forall j :: 2 + 8 * b <= j < 2 + 8 * b + i ==> !Unspent(vout, j)
    {
      if !vout[2 + b * 8 + i].IsNull() {
        assert Unspent(vout, 2 + 8 * b + i);
        fZero := false;
      }
      i := i + 1;
    }
  }

  /** The mask's length without trailing zero bytes, and how many of its bytes are not zero. */
  method CalcMaskSize(vout: seq<TxOut>) returns (nBytes: nat, nNonzeroBytes: nat)
    ensures nBytes == |TrimZeros(Mask(vout, MaskLength(vout)))|
    ensures nNonzeroBytes == NonZeros(Mask(vout, MaskLength(vout)))
  {
    hide MaskByte, Mask;
    nBytes, nNonzeroBytes := 0, 0;
    var b: nat := 0;
    while 2 + b * 8 < |vout|
      invariant b <= MaskLength(vout)
      invariant nBytes == |TrimZeros(Mask(vout, b))|
      invariant nNonzeroBytes == NonZeros(Mask(vout, b))
    {
      var fZero := ByteIsZero(vout, b);
      MaskStep(vout, b);
      if !fZero {
        nBytes := b + 1;
        nNonzeroBytes := nNonzeroBytes + 1;
      }
      b := b + 1;
    }
  }

  lemma {:induction false} MaskNext(vout: seq<TxOut>, at: nat, k: nat)
    ensures MaskFrom(vout, at, k + 1) == MaskFrom(vout, at, k) + (if Unspent(vout, at + k) then Shl(1, k) else 0)
    decreases k
  {
    if k > 0 {
      MaskNext(vout, at + 1, k - 1);
    }
  }

  lemma {:induction false} MaskPastEnd(vout: seq<TxOut>, at: nat, i: nat, k: nat)
    requires i <= k && |vout| <= at + i
    ensures MaskFrom(vout, at, k) == MaskFrom(vout, at, i)
  {
    if i < k {
      MaskPastEnd(vout, at, i, k - 1);
      MaskNext(vout, at, k - 1);
    }
  }

  /** Setting the bits of one mask byte. */
  method WriteMaskByte(vout: seq<TxOut>, b: nat) returns (chAvail: byte)
    ensures chAvail == MaskByte(vout, b)
  {
    assert Pow2(8) == 256;
    ghost var at: nat := 2 + 8 * b;
    var avail: nat := 0;
    var i: nat := 0;
    while i < 8 && 2 + b * 8 + i < |vout|
      invariant i <= 8
      invariant avail == MaskFrom(vout, at, i)
    {
      MaskNext(vout, at, i);
      if !vout[2 + b * 8 + i].IsNull() {
        OrDisjoint(1, avail, i);
        OrCommutes(avail, Shl(1, i));
        avail := Or(avail, Shl(1, i));
      }
      i := i + 1;
    }
    if i < 8 {
      MaskPastEnd(vout, at, i, 8);
    }
    chAvail := avail;
  }

  // ---------------------------------------------------------------- reading the mask

  /** Reading mask bytes until `n` more non-zero ones have been seen. */
  ghost function ReadMask(acc: seq<byte>, s: seq<byte>, n: nat): Result<seq<byte>>
    decreases |s|
  {
    if n == 0 then Ok(acc, s)
    else if s == [] then Failure
    else ReadMask(acc + [s[0]], s[1..], if s[0] != 0 then n - 1 else n)
  }

  lemma {:induction false} NonZerosCons(b: byte, bs: seq<byte>)
    ensures NonZeros([b] + bs) == (if b != 0 then 1 else 0) + NonZeros(bs)
  {
    var s := [b] + bs;
    if bs == [] {
      assert s[..|s| - 1] == [];
    } else {
      assert s[..|s| - 1] == [b] + bs[..|bs| - 1];
      NonZerosCons(b, bs[..|bs| - 1]);
    }
  }

  /** The reader stops exactly at the writer's last mask byte. */
  lemma {:induction false} ReadMaskStops(acc: seq<byte>, bs: seq<byte>, rest: seq<byte>)
    requires bs == [] || bs[|bs| - 1] != 0
    ensures ReadMask(acc, bs + rest, NonZeros(bs)) == Ok(acc + bs, rest)
    decreases |bs|
  {
    if bs == [] {
      assert bs + rest == rest && acc + bs == acc;
    } else {
      var t := bs[1..];
      assert bs == [bs[0]] + t && (bs + rest)[1..] == t + rest;
      NonZerosCons(bs[0], t);
      NonZerosBound(bs);
      ReadMaskStops(acc + [bs[0]], t, rest);
      assert acc + bs == acc + [bs[0]] + t;
    }
  }

  method PushBits(vAvail: seq<bool>, chAvail: byte) returns (r: seq<bool>)
    ensures |r| == |vAvail| + 8 && r[..|vAvail|] == vAvail
    ensures forall p :: 0 <= p < 8 ==> r[|vAvail| + p] == BitOf(chAvail, p)
  {
    r := vAvail;
    for p: nat := 0 to 8
      invariant |r| == |vAvail| + p && r[..|vAvail|] == vAvail
      invariant forall q :: 0 <= q < p ==> r[|vAvail| + q] == BitOf(chAvail, q)
    {
      AndBit(chAvail, p);
      r := r + [And(chAvail, Shl(1, p)) != 0];
    }
  }

  lemma UnpackAppend(bs: seq<byte>, b: byte, prefix: seq<bool>, r: seq<bool>)
    requires |r| == |prefix| + 8 * |bs| + 8 && r[..|prefix| + 8 * |bs|] == prefix + UnpackBits(bs)
    requires forall p :: 0 <= p < 8 ==> r[|prefix| + 8 * |bs| + p] == BitOf(b, p)
    ensures r == prefix + UnpackBits(bs + [b])
  {
    var m := |prefix|;
    forall i | 0 <= i < |r| ensures r[i] == (prefix + UnpackBits(bs + [b]))[i] {
      if i < m + 8 * |bs| {
        assert r[i] == (prefix + UnpackBits(bs))[i];
      } else {
        var p := i - m - 8 * |bs|;
        assert r[m + 8 * |bs| + p] == BitOf(b, p);
        assert (i - m) / 8 == |bs| && (i - m) % 8 == p;
      }
    }
  }

  method UnserializeMask(first: bool, second: bool, stream: seq<byte>, n: nat) returns (r: Result<seq<bool>>)
    ensures match ReadMask([], stream, n)
      case Failure => r == Failure
      case Ok(bs, rest) => r == Ok([first, second] + UnpackBits(bs), rest)
  {
    hide UnpackBits, BitOf;
    ghost var bs: seq<byte> := [];
    var vAvail := [first, second];
    var s := stream;
    var nMaskCode := n;
    assert vAvail == [first, second] + UnpackBits(bs);
    while nMaskCode > 0
      invariant vAvail == [first, second] + UnpackBits(bs)
      invariant ReadMask([], stream, n) == ReadMask(bs, s, nMaskCode)
      decreases |s|
    {
      if s == [] {
        return Failure;
      }
      var chAvail := s[0];
      var pushed := PushBits(vAvail, chAvail);
      UnpackAppend(bs, chAvail, [first, second], pushed);
      vAvail := pushed;
      bs := bs + [chAvail];
      s := s[1..];
      if chAvail != 0 {
        nMaskCode := nMaskCode - 1;
      }
    }
    r := Ok(vAvail, s);
  }

  // ---------------------------------------------------------------- the outputs

  /** Every unspent output can be written. */
  predicate ScriptsFit(vout: seq<TxOut>)
  {
    forall j :: 0 <= j < |vout| && Unspent(vout, j) ==> ScriptFits(vout[j].scriptPubKey)
  }

  /** What is written for the outputs from number `i` on. */
  ghost function OutsBytes(c: Curve, vout: seq<TxOut>, i: nat): seq<byte>
    decreases |vout| - i
  {
    if i >= |vout| then []
    else (if Unspent(vout, i) then OutBytes(c, vout[i]) else []) + OutsBytes(c, vout, i + 1)
  }

  /** Reading the outputs that are marked available, the others being null. */
  ghost function ReadOuts(c: Curve, avail: seq<bool>, acc: seq<TxOut>, s: seq<byte>): Result<seq<TxOut>>
    requires |acc| <= |avail|
    decreases |avail| - |acc|
  {
    if |acc| == |avail| then Ok(acc, s)
    else if !avail[|acc|] then ReadOuts(c, avail, acc + [NULL_OUT], s)
    else match ReadOut(c, s)
      case Failure => Failure
      case Ok(o, rest) => ReadOuts(c, avail, acc + [o], rest)
  }

  /** Output `i` as it is read back, or null. */
  ghost function Normal(vout: seq<TxOut>, i: nat): TxOut
  {
    if Unspent(vout, i) then ReadBackOut(vout[i]) else NULL_OUT
  }

  ghost function Restored(vout: seq<TxOut>, n: nat): seq<TxOut>
  {
    seq(n, i requires 0 <= i < n => Normal(vout, i))
  }

  lemma {:induction false} NothingLeft(c: Curve, vout: seq<TxOut>, i: nat)
    requires forall j :: i <= j < |vout| ==> vout[j].IsNull()
    ensures OutsBytes(c, vout, i) == []
    decreases |vout| - i
  {
    if i < |vout| {
      NothingLeft(c, vout, i + 1);
    }
  }

  lemma OutsStep(c: Curve, vout: seq<TxOut>, i: nat)
    ensures Unspent(vout, i) ==> OutsBytes(c, vout, i) == OutBytes(c, vout[i]) + OutsBytes(c, vout, i + 1)
    ensures !Unspent(vout, i) ==> OutsBytes(c, vout, i) == OutsBytes(c, vout, i + 1)
  {
  }

  lemma {:induction false} ReadOutsStep(c: Curve, avail: seq<bool>, acc: seq<TxOut>, s: seq<byte>)
    requires |acc| <= |avail|
    ensures |acc| == |avail| ==> ReadOuts(c, avail, acc, s) == Ok(acc, s)
    ensures |acc| < |avail| && !avail[|acc|] ==> ReadOuts(c, avail, acc, s) == ReadOuts(c, avail, acc + [NULL_OUT], s)
    ensures |acc| < |avail| && avail[|acc|] && ReadOut(c, s).Ok? ==>
      ReadOuts(c, avail, acc, s) == ReadOuts(c, avail, acc + [ReadOut(c, s).value], ReadOut(c, s).rest)
  {
  }

  /** Reading the outputs back, whatever the length of the availability list. */
  lemma {:induction false} OutsRoundTrip(c: Curve, vout: seq<TxOut>, avail: seq<bool>, n: nat, tail: seq<byte>)
    requires c.Lawful() && ScriptsFit(vout)
    requires n <= |avail| && forall i :: 0 <= i < |avail| ==> (avail[i] <==> Unspent(vout, i))
    requires forall j :: |avail| <= j < |vout| ==> vout[j].IsNull()
    ensures ReadOuts(c, avail, Restored(vout, n), OutsBytes(c, vout, n) + tail) == Ok(Restored(vout, |avail|), tail)
    decreases |avail| - n
  {
    hide ReadOut, OutBytes, OutsBytes, ScriptFits, ReadBackOut, ReadOuts;
    var s, acc := OutsBytes(c, vout, n) + tail, Restored(vout, n);
    ReadOutsStep(c, avail, acc, s);
    if n == |avail| {
      NothingLeft(c, vout, n);
      assert s == tail;
    } else {
      OutsRoundTrip(c, vout, avail, n + 1, tail);
      assert Restored(vout, n + 1) == acc + [Normal(vout, n)];
      var next := OutsBytes(c, vout, n + 1) + tail;
      OutsStep(c, vout, n);
      if avail[n] {
        OutRoundTrip(c, vout[n], next);
        assert s == OutBytes(c, vout[n]) + next;
      }
    }
  }

  lemma NotNull(vout: seq<TxOut>, i: nat)
    requires i < |vout|
    ensures Unspent(vout, i) <==> !vout[i].IsNull()
  {
  }

  lemma ScriptOf(vout: seq<TxOut>, i: nat)
    requires ScriptsFit(vout) && Unspent(vout, i)
    ensures ScriptFits(vout[i].scriptPubKey)
  {
  }

  method SerializeOuts(c: Curve, vout: seq<TxOut>) returns (out: seq<byte>)
    requires ScriptsFit(vout)
    ensures out == OutsBytes(c, vout, 0)
  {
    hide *;
    out := [];
    var i: nat := 0;
    assert out + OutsBytes(c, vout, i) == OutsBytes(c, vout, 0);
    while i < |vout|
      invariant i <= |vout|
      invariant out + OutsBytes(c, vout, i) == OutsBytes(c, vout, 0)
    {
      ghost var before, next := out, OutsBytes(c, vout, i + 1);
      OutsStep(c, vout, i);
      NotNull(vout, i);
      if !vout[i].IsNull() {
        ScriptOf(vout, i);
        var bytes := SerializeOut(c, vout[i]);
        out := out + bytes;
        assert before + (bytes + next) == out + next;
      }
      i := i + 1;
    }
    NothingLeft(c, vout, i);
  }

  method UnserializeOuts(c: Curve, avail: seq<bool>, stream: seq<byte>) returns (r: Result<seq<TxOut>>)
    ensures r == ReadOuts(c, avail, [], stream)
  {
    hide ReadOut;
    var vout: seq<TxOut> := [];
    var s := stream;
    while |vout| < |avail|
      invariant |vout| <= |avail|
      invariant ReadOuts(c, avail, [], stream) == ReadOuts(c, avail, vout, s)
    {
      if avail[|vout|] {
        var o := UnserializeOut(c, s);
        if o.Failure? {
          return Failure;
        }
        vout, s := vout + [o.value], o.rest;
      } else {
        vout := vout + [NULL_OUT];
      }
    }
    r := Ok(vout, s);
  }

  // ---------------------------------------------------------------- signed numbers

  predicate IsInt(n: int)
  {
    -INT_MAX - 1 <= n <= INT_MAX
  }

  /** A signed number is written as it is when it is not negative; of a negative one only seven bits are written. */
  ghost function SignedBytes(n: int): seq<byte>
  {
    if n < 0 then [n % 128] else Encoded(n)
  }

  function ReadBack(n: int): int
  {
    if n < 0 then n % 128 else n
  }

  function ToInt(n: nat): int
  {
    if n <= INT_MAX then n else n - 2 * INT_MAX - 2
  }

  lemma SignedRoundTrip(n: int, tail: seq<byte>)
    requires IsInt(n)
    ensures match ReadResult(SignedBytes(n) + tail, 32)
      case Failure => false
      case Ok(x, rest) => rest == tail && ToInt(x) == ReadBack(n)
  {
    hide ReadResult, Pow;
    Pow64();
    ReadWritten(ReadBack(n), 32, tail);
  }

  method WriteSigned(n: int) returns (out: seq<byte>)
    requires IsInt(n)
    ensures out == SignedBytes(n)
  {
    hide Encoded, Pow;
    if n < 0 {
      return [n % 128];
    }
    Pow64();
    out := WriteVarInt(n, 32);
  }

  // ---------------------------------------------------------------- whole coins

  /** Coins that the writer accepts: something is unspent, and the sizes fit their 32-bit counters. */
  ghost predicate Writable(c: CCoins)
  {
    && !c.IsPruned() && |c.vout| + 16 < Pow2(32)
    && IsInt(c.nVersion) && IsInt(c.nHeight) && ScriptsFit(c.vout)
  }

  function HeaderCode(coinbase: bool, first: bool, second: bool, nonzeros: nat): nat
    requires first || second || nonzeros > 0
  {
    8 * (nonzeros - (if first || second then 0 else 1))
    + (if coinbase then 1 else 0) + (if first then 2 else 0) + (if second then 4 else 0)
  }

  lemma ByteInUse(vout: seq<TxOut>, i: nat)
    requires i >= 2 && Unspent(vout, i)
    ensures MaskByte(vout, (i - 2) / 8) != 0
  {
  }

  /** The assertion of the writer: coins that are not pruned have something to announce. */
  lemma SomethingUnspent(c: CCoins)
    requires !c.IsPruned()
    ensures Unspent(c.vout, 0) || Unspent(c.vout, 1) || NonZeros(Mask(c.vout, MaskLength(c.vout))) > 0
  {
    hide MaskByte;
    var n := MaskLength(c.vout);
    var i :| 0 <= i < |c.vout| && !c.vout[i].IsNull();
    if i >= 2 {
      var b := (i - 2) / 8;
      ByteInUse(c.vout, i);
      assert Mask(c.vout, n)[b] == MaskByte(c.vout, b);
      NonZerosBound(Mask(c.vout, n));
    }
  }

  lemma CodeFits(c: CCoins)
    requires Writable(c)
    ensures NonZeros(Mask(c.vout, MaskLength(c.vout))) * 8 + 7 < Pow2(32)
  {
    NonZerosBound(Mask(c.vout, MaskLength(c.vout)));
  }

  ghost function CodeOf(c: CCoins): nat
    requires Writable(c)
  {
    SomethingUnspent(c);
    HeaderCode(c.fCoinBase, Unspent(c.vout, 0), Unspent(c.vout, 1), NonZeros(Mask(c.vout, MaskLength(c.vout))))
  }

  ghost function CoinsBytes(curve: Curve, c: CCoins): seq<byte>
    requires Writable(c)
  {
    SignedBytes(c.nVersion) + (Encoded(CodeOf(c)) + (TrimZeros(Mask(c.vout, MaskLength(c.vout)))
      + (OutsBytes(curve, c.vout, 0) + SignedBytes(c.nHeight))))
  }

  method Serialize(curve: Curve, c: CCoins) returns (out: seq<byte>)
    requires Writable(c)
    ensures out == CoinsBytes(curve, c)
  {
    hide *;
    var vout := c.vout;
    var nMaskSize, nMaskCode := CalcMaskSize(vout);
    var fFirst := Unspent(vout, 0);
    var fSecond := Unspent(vout, 1);
    WritableMeans(c);
    var nCode := HeaderCode(c.fCoinBase, fFirst, fSecond, nMaskCode);
    out := WriteSigned(c.nVersion);
    var code := WriteVarInt(nCode, 32);
    var mask := SerializeMask(vout, nMaskSize);
    var outs := SerializeOuts(curve, vout);
    var height := WriteSigned(c.nHeight);
    CoinsBytesMeans(curve, c);
    out := out + (code + (mask + (outs + height)));
  }

  method SerializeMask(vout: seq<TxOut>, nMaskSize: nat) returns (mask: seq<byte>)
    ensures mask == Mask(vout, nMaskSize)
  {
    hide MaskByte;
    mask := [];
    var b: nat := 0;
    while b < nMaskSize
      invariant b <= nMaskSize && mask == Mask(vout, b)
    {
      var chAvail := WriteMaskByte(vout, b);
      mask := mask + [chAvail];
      b := b + 1;
    }
  }

  lemma WritableMeans(c: CCoins)
    requires Writable(c)
    ensures IsInt(c.nVersion) && IsInt(c.nHeight) && ScriptsFit(c.vout)
    ensures var n := NonZeros(Mask(c.vout, MaskLength(c.vout)));
      && (Unspent(c.vout, 0) || Unspent(c.vout, 1) || n > 0)
      && HeaderCode(c.fCoinBase, Unspent(c.vout, 0), Unspent(c.vout, 1), n) == CodeOf(c) < Pow2(32)
  {
    hide Mask, MaskLength, Pow;
    SomethingUnspent(c);
    CodeFits(c);
  }

  lemma CoinsBytesMeans(curve: Curve, c: CCoins)
    requires Writable(c)
    ensures var m := Mask(c.vout, |TrimZeros(Mask(c.vout, MaskLength(c.vout)))|);
      CoinsBytes(curve, c) == SignedBytes(c.nVersion) + (Encoded(CodeOf(c)) + (m
        + (OutsBytes(curve, c.vout, 0) + SignedBytes(c.nHeight))))
  {
    TrimmedMask(c.vout);
  }

  /** The size announced is the size written. */
  method GetSerializeSize(curve: Curve, c: CCoins) returns (nSize: nat)
    requires Writable(c)
    ensures nSize == |CoinsBytes(curve, c)|
  {
    hide *;
    var vout := c.vout;
    var nMaskSize, nMaskCode := CalcMaskSize(vout);
    var fFirst := Unspent(vout, 0);
    var fSecond := Unspent(vout, 1);
    WritableMeans(c);
    var nCode := HeaderCode(c.fCoinBase, fFirst, fSecond, nMaskCode);
    var version := GetSizeOfSigned(c.nVersion);
    var code := GetSizeOfVarInt(nCode);
    var outs := GetSizeOfOuts(curve, vout);
    var height := GetSizeOfSigned(c.nHeight);
    CoinsBytesMeans(curve, c);
    nSize := version + code + nMaskSize + outs + height;
  }

  method GetSizeOfSigned(n: int) returns (nRet: nat)
    ensures nRet == |SignedBytes(n)|
  {
    hide Encoded;
    if n < 0 {
      return 1;
    }
    nRet := GetSizeOfVarInt(n);
  }

  method GetSizeOfOut(c: Curve, o: TxOut) returns (n: nat)
    ensures n == |OutBytes(c, o)|
  {
    hide Encoded, ScriptBytes, Compressed, Unsigned;
    var nVal := CompressAmount(Unsigned(o.nValue));
    var amount := GetSizeOfVarInt(nVal);
    var script := GetScriptSize(c, o.scriptPubKey);
    n := amount + script;
  }

  method GetSizeOfOuts(c: Curve, vout: seq<TxOut>) returns (n: nat)
    ensures n == |OutsBytes(c, vout, 0)|
  {
    hide *;
    n := 0;
    var i: nat := 0;
    while i < |vout|
      invariant i <= |vout|
      invariant n + |OutsBytes(c, vout, i)| == |OutsBytes(c, vout, 0)|
    {
      OutsStep(c, vout, i);
      NotNull(vout, i);
      if !vout[i].IsNull() {
        var size := GetSizeOfOut(c, vout[i]);
        n := n + size;
      }
      i := i + 1;
    }
    NothingLeft(c, vout, i);
  }

  /** What the reader makes of a stream. */
  ghost function ReadCoins(curve: Curve, stream: seq<byte>): Result<CCoins>
  {
    match ReadResult(stream, 32)
    case Failure => Failure
    case Ok(version, s1) =>
      match ReadResult(s1, 32)
      case Failure => Failure
      case Ok(code, s2) =>
        match ReadMask([], s2, code / 8 + if BitOf(code, 1) || BitOf(code, 2) then 0 else 1)
        case Failure => Failure
        case Ok(mask, s3) =>
          match ReadOuts(curve, [BitOf(code, 1), BitOf(code, 2)] + UnpackBits(mask), [], s3)
          case Failure => Failure
          case Ok(vout, s4) =>
            match ReadResult(s4, 32)
            case Failure => Failure
            case Ok(height, s5) => Ok(CCoins(BitOf(code, 0), DropNulls(vout), ToInt(height), ToInt(version)), s5)
  }

  lemma AndUnfold(x: nat, y: nat)
    requires x > 0 && y > 0
    ensures And(x, y) == 2 * And(x / 2, y / 2) + (if x % 2 == 1 && y % 2 == 1 then 1 else 0)
  {
  }

  lemma BitUnfold(n: nat, p: nat)
    ensures BitOf(n, p + 1) <==> BitOf(n / 2, p)
    ensures BitOf(n, 0) <==> n % 2 == 1
  {
  }

  lemma AndSix(n: nat)
    ensures And(n, 6) != 0 <==> BitOf(n, 1) || BitOf(n, 2)
  {
    hide *;
    BitUnfold(n, 0);
    BitUnfold(n, 1);
    BitUnfold(n / 2, 0);
    AndSmall(n / 2 / 2);
    if n > 0 {
      AndUnfold(n, 6);
      if n / 2 > 0 {
        AndUnfold(n / 2, 3);
      }
    }
    if n / 2 == 0 {
      AndNothing(3);
      AndNothing(6);
    }
  }

  lemma AndSmall(n: nat)
    ensures And(n, 1) != 0 <==> BitOf(n, 0)
  {
    AndBit(n, 0);
  }

  lemma AndNothing(n: nat)
    ensures And(0, n) == 0 && !BitOf(0, 0)
  {
  }

  lemma SmallShifts()
    ensures Shl(1, 0) == 1 && Shl(1, 1) == 2 && Shl(1, 2) == 4
  {
  }

  lemma HeaderBits(n: nat)
    ensures And(n, 1) != 0 <==> BitOf(n, 0)
    ensures And(n, 2) != 0 <==> BitOf(n, 1)
    ensures And(n, 4) != 0 <==> BitOf(n, 2)
    ensures And(n, 6) != 0 <==> BitOf(n, 1) || BitOf(n, 2)
  {
    hide *;
    SmallShifts();
    AndBit(n, 0);
    AndBit(n, 1);
    AndBit(n, 2);
    AndSix(n);
  }

  method Unserialize(curve: Curve, stream: seq<byte>) returns (r: Result<CCoins>)
    ensures r == ReadCoins(curve, stream)
  {
    hide ReadResult, BitOf, UnpackBits, ReadMask, ReadOuts, And;
    var version := ReadVarInt(stream, 32);
    if version.Failure? {
      return Failure;
    }
    var code := ReadVarInt(version.rest, 32);
    if code.Failure? {
      return Failure;
    }
    var nCode := code.value;
    HeaderBits(nCode);
    var fCoinBase := And(nCode, 1) != 0;
    var nMaskCode := nCode / 8 + (if And(nCode, 6) != 0 then 0 else 1);
    var avail := UnserializeMask(And(nCode, 2) != 0, And(nCode, 4) != 0, code.rest, nMaskCode);
    if avail.Failure? {
      return Failure;
    }
    var vout := UnserializeOuts(curve, avail.value, avail.rest);
    if vout.Failure? {
      return Failure;
    }
    var height := ReadVarInt(vout.rest, 32);
    if height.Failure? {
      return Failure;
    }
    var coins := Cleanup(CCoins(fCoinBase, vout.value, ToInt(height.value), ToInt(version.value)));
    r := Ok(coins, height.rest);
  }

  // ---------------------------------------------------------------- round trip

  /**
  The coins that come back: cleaned up, without round counters, with the values that their
  64-bit codes spell, spent outputs reset, signs of version and height lost.
  */
  ghost function Canonical(c: CCoins): CCoins
  {
    CCoins(c.fCoinBase, DropNulls(Restored(c.vout, |c.vout|)), ReadBack(c.nHeight), ReadBack(c.nVersion))
  }

  lemma HeaderRoundTrip(coinbase: bool, first: bool, second: bool, nonzeros: nat)
    requires first || second || nonzeros > 0
    ensures var code := HeaderCode(coinbase, first, second, nonzeros);
      && BitOf(code, 0) == coinbase && BitOf(code, 1) == first && BitOf(code, 2) == second
      && code / 8 + (if first || second then 0 else 1) == nonzeros
  {
  }

  lemma {:induction false} DropPastNulls(s: seq<TxOut>, n: nat)
    requires n <= |s| && forall i :: n <= i < |s| ==> s[i].IsNull()
    ensures DropNulls(s) == DropNulls(s[..n])
    decreases |s| - n
  {
    if n < |s| {
      var t := s[..|s| - 1];
      DropPastNulls(t, n);
      assert t[..n] == s[..n];
    } else {
      assert s[..n] == s;
    }
  }

  /** How many outputs are restored beyond the unspent ones makes no difference after cleanup. */
  lemma RestoredLength(vout: seq<TxOut>, n: nat, m: nat)
    requires n <= m && forall i :: n <= i < |vout| ==> vout[i].IsNull()
    ensures DropNulls(Restored(vout, m)) == DropNulls(Restored(vout, n))
  {
    DropPastNulls(Restored(vout, m), n);
    assert Restored(vout, m)[..n] == Restored(vout, n);
  }

  lemma AvailabilityRead(vout: seq<TxOut>, n: nat)
    ensures var avail := [Unspent(vout, 0), Unspent(vout, 1)] + UnpackBits(Mask(vout, n));
      |avail| == 2 + 8 * n && forall i :: 0 <= i < |avail| ==> (avail[i] <==> Unspent(vout, i))
  {
    hide *;
    var avail := [Unspent(vout, 0), Unspent(vout, 1)] + UnpackBits(Mask(vout, n));
    forall i | 0 <= i < |avail| ensures avail[i] <==> Unspent(vout, i) {
      if i >= 2 {
        UnpackedBit(vout, n, i - 2);
      }
    }
  }

  lemma ReadCoinsInParts(curve: Curve, stream: seq<byte>, version: nat, s1: seq<byte>, code: nat, s2: seq<byte>,
                         mask: seq<byte>, s3: seq<byte>, vout: seq<TxOut>, s4: seq<byte>, height: nat, tail: seq<byte>)
    requires ReadResult(stream, 32) == Ok(version, s1) && ReadResult(s1, 32) == Ok(code, s2)
    requires ReadMask([], s2, code / 8 + if BitOf(code, 1) || BitOf(code, 2) then 0 else 1) == Ok(mask, s3)
    requires ReadOuts(curve, [BitOf(code, 1), BitOf(code, 2)] + UnpackBits(mask), [], s3) == Ok(vout, s4)
    requires ReadResult(s4, 32) == Ok(height, tail)
    ensures ReadCoins(curve, stream) == Ok(CCoins(BitOf(code, 0), DropNulls(vout), ToInt(height), ToInt(version)), tail)
  {
    hide ReadResult, BitOf, UnpackBits, ReadMask, ReadOuts, DropNulls, ToInt;
  }

  /** The outputs and the height are read back from what follows the mask. */
  lemma BodyRoundTrip(curve: Curve, vout: seq<TxOut>, tail: seq<byte>) returns (mask: seq<byte>, outs: seq<TxOut>)
    requires curve.Lawful() && ScriptsFit(vout)
    ensures mask == TrimZeros(Mask(vout, MaskLength(vout))) && NonZeros(mask) == NonZeros(Mask(vout, MaskLength(vout)))
    ensures ReadMask([], mask + (OutsBytes(curve, vout, 0) + tail), NonZeros(mask))
         == Ok(mask, OutsBytes(curve, vout, 0) + tail)
    ensures var avail := [Unspent(vout, 0), Unspent(vout, 1)] + UnpackBits(mask);
      ReadOuts(curve, avail, [], OutsBytes(curve, vout, 0) + tail) == Ok(outs, tail)
    ensures DropNulls(outs) == DropNulls(Restored(vout, |vout|))
  {
    hide *;
    mask := TrimZeros(Mask(vout, MaskLength(vout)));
    NonZerosOfTrimmed(Mask(vout, MaskLength(vout)));
    ReadMaskStops([], mask, OutsBytes(curve, vout, 0) + tail);
    assert [] + mask == mask;
    TrimmedMask(vout);
    AvailabilityRead(vout, |mask|);
    var avail := [Unspent(vout, 0), Unspent(vout, 1)] + UnpackBits(mask);
    OutsRoundTrip(curve, vout, avail, 0, tail);
    NoneRestored(vout);
    outs := Restored(vout, |avail|);
    if |vout| <= |avail| {
      RestoredLength(vout, |vout|, |avail|);
    } else {
      RestoredLength(vout, |avail|, |vout|);
    }
  }

  lemma NoneRestored(vout: seq<TxOut>)
    ensures Restored(vout, 0) == []
  {
  }

  lemma CanonicalIs(c: CCoins)
    ensures Canonical(c)
         == CCoins(c.fCoinBase, DropNulls(Restored(c.vout, |c.vout|)), ReadBack(c.nHeight), ReadBack(c.nVersion))
  {
  }

  /** Every writable coins record is read back in canonical form, and exactly its bytes are consumed. */
  lemma CoinsRoundTrip(curve: Curve, c: CCoins, tail: seq<byte>)
    requires curve.Lawful() && Writable(c)
    ensures ReadCoins(curve, CoinsBytes(curve, c) + tail) == Ok(Canonical(c), tail)
  {
    hide *;
    var vout := c.vout;
    WritableMeans(c);
    var s4 := SignedBytes(c.nHeight) + tail;
    var mask, outs := BodyRoundTrip(curve, vout, s4);
    var s3 := OutsBytes(curve, vout, 0) + s4;
    var s2 := mask + s3;
    var s1 := Encoded(CodeOf(c)) + s2;
    var stream := CoinsBytes(curve, c) + tail;
    TrimmedMask(vout);
    CoinsBytesMeans(curve, c);
    assert stream == SignedBytes(c.nVersion) + s1;
    SignedRoundTrip(c.nVersion, s1);
    ReadWritten(CodeOf(c), 32, s2);
    HeaderRoundTrip(c.fCoinBase, Unspent(vout, 0), Unspent(vout, 1), NonZeros(mask));
    SignedRoundTrip(c.nHeight, tail);
    var version, height := ReadResult(stream, 32).value, ReadResult(s4, 32).value;
    ReadCoinsInParts(curve, stream, version, s1, CodeOf(c), s2, mask, s3, outs, s4, height, tail);
    CanonicalIs(c);
  }

  lemma NormalIsNull(vout: seq<TxOut>, i: nat)
    ensures Normal(vout, i).IsNull() <==> !Unspent(vout, i)
  {
    hide ReadValue;
    if Unspent(vout, i) {
      NeverNull(vout[i].nValue);
    }
  }

  /** What comes back has the same outputs available, with their scripts, and the values that survive. */
  lemma CanonicalKeeps(c: CCoins)
    ensures Canonical(c).IsClean()
    ensures forall n: nat :: Canonical(c).IsAvailable(n) <==> c.IsAvailable(n)
    ensures forall n: nat :: c.IsAvailable(n) && Canonical(c).IsAvailable(n) ==>
      var o, o' := c.vout[n], Canonical(c).vout[n];
      o'.scriptPubKey == o.scriptPubKey && (o'.nValue == o.nValue <==> Survives(o.nValue))
  {
    hide Survives, ReadValue;
    var r := Restored(c.vout, |c.vout|);
    assert forall i: nat :: i < |r| ==> r[i] == Normal(c.vout, i);
    var d := DropNulls(r);
    assert forall i :: 0 <= i < |d| ==> d[i] == r[i];
    forall n: nat
      ensures Canonical(c).IsAvailable(n) <==> c.IsAvailable(n)
      ensures c.IsAvailable(n) ==> Canonical(c).vout[n] == ReadBackOut(c.vout[n])
    {
      NormalIsNull(c.vout, n);
      assert n < |r| ==> (r[n].IsNull() <==> !Unspent(c.vout, n));
    }
    forall n: nat | c.IsAvailable(n)
      ensures ReadBackOut(c.vout[n]).nValue == c.vout[n].nValue <==> Survives(c.vout[n].nValue)
    {
      ValueSurvives(c.vout[n].nValue);
    }
  }

  /** An output that carries nothing the stream does not: no round counter, and a value with a short code. */
  predicate PlainOut(o: TxOut)
  {
    if o.IsNull() then o == NULL_OUT else o.nRounds == NULL_OUT.nRounds && Survives(o.nValue)
  }

  /** Coins without signs, and all of whose outputs, up to the last unspent one, are plain. */
  predicate Plain(c: CCoins)
  {
    c.nVersion >= 0 && c.nHeight >= 0 && forall i :: 0 <= i < |DropNulls(c.vout)| ==> PlainOut(c.vout[i])
  }

  lemma PlainIsNormal(vout: seq<TxOut>, i: nat)
    requires i < |vout|
    ensures Normal(vout, i) == vout[i] <==> PlainOut(vout[i])
  {
    hide Survives, ReadValue;
    ValueSurvives(vout[i].nValue);
  }

  lemma {:induction false} DropNullsLength(a: seq<TxOut>, b: seq<TxOut>)
    requires |a| == |b| && forall i :: 0 <= i < |a| ==> (a[i].IsNull() <==> b[i].IsNull())
    ensures |DropNulls(a)| == |DropNulls(b)|
  {
    if a != [] && a[|a| - 1].IsNull() {
      DropNullsLength(a[..|a| - 1], b[..|b| - 1]);
    }
  }

  lemma OutsRestored(vout: seq<TxOut>)
    ensures var a, b := DropNulls(Restored(vout, |vout|)), DropNulls(vout);
      a == b <==> forall i :: 0 <= i < |b| ==> PlainOut(vout[i])
  {
    hide Normal, PlainOut;
    var r := Restored(vout, |vout|);
    forall i | 0 <= i < |vout|
      ensures (r[i].IsNull() <==> vout[i].IsNull()) && (r[i] == vout[i] <==> PlainOut(vout[i]))
    {
      NormalIsNull(vout, i);
      NotNull(vout, i);
      PlainIsNormal(vout, i);
    }
    DropNullsLength(r, vout);
    var a, b := DropNulls(r), DropNulls(vout);
    assert forall i :: 0 <= i < |a| ==> a[i] == r[i] && b[i] == vout[i];
  }

  /** Coins are read back as they were, up to cleanup, exactly when they are plain. */
  lemma RoundTripExact(curve: Curve, c: CCoins, tail: seq<byte>)
    requires curve.Lawful() && Writable(c)
    ensures ReadCoins(curve, CoinsBytes(curve, c) + tail) == Ok(Cleaned(c), tail) <==> Plain(c)
  {
    hide ReadCoins, CoinsBytes, PlainOut, DropNulls, Restored;
    CoinsRoundTrip(curve, c, tail);
    OutsRestored(c.vout);
  }

  /** Coins with a round counter that can be written, and are read back without it. */
  lemma RoundsAreLost(curve: Curve, tail: seq<byte>)
    requires curve.Lawful()
    ensures var c := CCoins(false, [TxOut(5, [], 3)], 1, 1);
      && Writable(c) && Cleaned(c) == c
      && ReadCoins(curve, CoinsBytes(curve, c) + tail) == Ok(CCoins(false, [TxOut(5, [], -10)], 1, 1), tail)
  {
    hide ReadValue, ReadCoins;
    MoneySurvives(5);
    SingleOut(curve, TxOut(5, [], 3), 5, tail);
  }

  /** Coins with an amount whose code does not fit 64 bits, read back with another amount. */
  lemma AmountIsLost(curve: Curve, tail: seq<byte>)
    requires curve.Lawful()
    ensures var c := CCoins(false, [TxOut(2049638230412172403, [], -10)], 1, 1);
      && Writable(c) && Cleaned(c) == c
      && ReadCoins(curve, CoinsBytes(curve, c) + tail) == Ok(CCoins(false, [TxOut(10000, [], -10)], 1, 1), tail)
  {
    hide Compressed, Decompressed, ReadCoins;
    SmallestLost();
    DivModSmall(2049638230412172403, TWO64);
    SingleOut(curve, TxOut(2049638230412172403, [], -10), 10000, tail);
  }

  lemma SingleOut(curve: Curve, o: TxOut, v: int, tail: seq<byte>)
    requires curve.Lawful() && o.scriptPubKey == [] && !o.IsNull() && ReadValue(o.nValue) == v
    ensures var c := CCoins(false, [o], 1, 1);
      && Writable(c) && Cleaned(c) == c
      && ReadCoins(curve, CoinsBytes(curve, c) + tail) == Ok(CCoins(false, [TxOut(v, [], -10)], 1, 1), tail)
  {
    hide Pow, ReadCoins, CoinsBytes, ScriptFits, ReadValue;
    var c := CCoins(false, [o], 1, 1);
    SmallScript(o.scriptPubKey);
    Pow64();
    CoinsRoundTrip(curve, c, tail);
    NeverNull(o.nValue);
    assert Restored(c.vout, 1) == [TxOut(v, [], -10)];
  }

  lemma SmallScript(s: seq<byte>)
    requires s == []
    ensures ScriptFits(s)
  {
    hide Pow;
    Pow64();
  }
}
