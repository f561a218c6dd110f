/**
Variable-length integers and compact sizes. A variable-length integer is a base-128
number, most significant group first, with one subtracted from every group but the
last so that every number has exactly one encoding.
*/
module VarInt {
  import opened Numbers
  import opened Bits
  import opened Results

  // ---------------------------------------------------------------- what the bytes mean

  /** The groups of n; all groups before the last carry the continuation bit. */
  ghost function Groups(n: nat, more: bool): (bs: seq<byte>)
    ensures |bs| > 0
  {
    var top := if more then 0x80 else 0;
    if n <= 0x7F then [top + n] else Groups(n / 128 - 1, true) + [top + n % 128]
  }

  /** The encoding of n. */
  ghost function Encoded(n: nat): seq<byte>
  {
    Groups(n, false)
  }

  /** A complete encoding: the continuation bit on every byte but the last. */
  predicate Terminated(bs: seq<byte>)
  {
    |bs| > 0 && bs[|bs| - 1] < 0x80 && forall i :: 0 <= i < |bs| - 1 ==> bs[i] >= 0x80
  }

  /** The number read from bytes that all carry the continuation bit. */
  ghost function Prefix(bs: seq<byte>): nat
    requires forall i :: 0 <= i < |bs| ==> bs[i] >= 0x80
  {
    if bs == [] then 0 else Prefix(bs[..|bs| - 1]) * 128 + (bs[|bs| - 1] - 0x80) + 1
  }

  /** The number a complete encoding stands for. */
  ghost function Decoded(bs: seq<byte>): nat
    requires Terminated(bs)
  {
    Prefix(bs[..|bs| - 1]) * 128 + bs[|bs| - 1]
  }

  lemma {:induction false} GroupsAreContinued(n: nat)
    ensures forall i :: 0 <= i < |Groups(n, true)| ==> Groups(n, true)[i] >= 0x80
    ensures Prefix(Groups(n, true)) == n + 1
  {
    if n > 0x7F {
      GroupsAreContinued(n / 128 - 1);
      var g := Groups(n / 128 - 1, true);
      assert (g + [0x80 + n % 128])[..|g|] == g;
    } else {
      assert Prefix([0x80 + n][..0]) == 0;
    }
  }

  /** Reading back what was written gives the number. */
  lemma DecodedEncoded(n: nat)
    ensures Terminated(Encoded(n)) && Decoded(Encoded(n)) == n
  {
    if n > 0x7F {
      var g := Groups(n / 128 - 1, true);
      GroupsAreContinued(n / 128 - 1);
      assert (g + [n % 128])[..|g|] == g;
    } else {
      assert [n][..0] == [];
    }
  }

  lemma {:induction false} GroupsOfPrefix(bs: seq<byte>)
    requires bs != [] && forall i :: 0 <= i < |bs| ==> bs[i] >= 0x80
    ensures Prefix(bs) > 0 && Groups(Prefix(bs) - 1, true) == bs
  {
    var m := |bs| - 1;
    var n := Prefix(bs) - 1;
    assert bs == bs[..m] + [bs[m]];
    if m > 0 {
      GroupsOfPrefix(bs[..m]);
      assert n / 128 == Prefix(bs[..m]) && n % 128 == bs[m] - 0x80;
    } else {
      assert bs[..m] == [];
    }
  }

  /** Writing back what was read gives the bytes: no two encodings mean the same number. */
  lemma EncodedDecoded(bs: seq<byte>)
    requires Terminated(bs)
    ensures Encoded(Decoded(bs)) == bs
  {
    var m := |bs| - 1;
    var n := Decoded(bs);
    assert bs == bs[..m] + [bs[m]];
    if m > 0 {
      GroupsOfPrefix(bs[..m]);
      assert n / 128 == Prefix(bs[..m]) && n % 128 == bs[m];
    } else {
      assert bs[..m] == [];
    }
  }

  // ---------------------------------------------------------------- writing

  method GetSizeOfVarInt(n0: nat) returns (nRet: nat)
    ensures nRet == |Encoded(n0)|
  {
    nRet := 0;
    var n := n0;
    ghost var more := false;
    while true
      invariant nRet + |Groups(n, more)| == |Encoded(n0)|
      decreases n
    {
      nRet := nRet + 1;
      if n <= 0x7F {
        return;
      }
      n := n / 128 - 1;
      more := true;
    }
  }

  function TmpSize(bits: nat): nat
  {
    (bits + 6) / 7
  }

  function Reversed(bs: seq<byte>): (r: seq<byte>)
    ensures |r| == |bs|
  {
    if bs == [] then [] else [bs[|bs| - 1]] + Reversed(bs[..|bs| - 1])
  }

  lemma ReversedAppend(bs: seq<byte>, b: byte)
    ensures Reversed(bs + [b]) == [b] + Reversed(bs)
  {
    assert (bs + [b])[..|bs|] == bs;
  }

  lemma Narrower(n: nat, bits: nat)
    requires n > 0x7F && n < Pow2(bits)
    ensures bits > 7 && n / 128 - 1 < Pow2(bits - 7)
  {
    assert Pow2(7) == 128;
    if bits <= 7 {
      PowMonotone(2, bits, 7);
    } else {
      PowAdd(2, 7, bits - 7);
    }
  }

  /** The group byte as the code computes it. */
  lemma GroupByte(n: nat, more: bool)
    ensures Or(And(n, 0x7F), if more then 0x80 else 0) == (if more then 0x80 else 0) + n % 128
  {
    assert Pow2(7) == 128;
    AndMask(n, 7);
    ShrIsDiv(n, 7);
    OrCommutes(And(n, 0x7F), 0x80);
    ShlIsMul(1, 7);
    if more {
      OrDisjoint(1, n % 128, 7);
    } else {
      OrZero(And(n, 0x7F));
    }
  }

  /** Fills `tmp` from the least significant group; `tmp` is long enough for any number of that many bits. */
  method FillGroups(n0: nat, bits: nat, tmp: array<byte>) returns (len: nat)
    requires n0 < Pow2(bits) && bits > 0 && tmp.Length == TmpSize(bits)
    modifies tmp
    ensures len < tmp.Length && Reversed(tmp[..len + 1]) == Encoded(n0)
  {
    hide *;
    var n: nat := n0;
    len := 0;
    EncodedGroups(n0);
    TmpFits(bits, 0);
    assert tmp[..0] == [];
    while true
      invariant len < tmp.Length && 7 * len < bits && n < Pow2(bits - 7 * len)
      invariant Groups(n, len > 0) + Reversed(tmp[..len]) == Encoded(n0)
      decreases n
    {
      GroupByte(n, len > 0);
      GroupsStep(n, len > 0);
      tmp[len] := Or(And(n, 0x7F), if len > 0 then 0x80 else 0);
      assert tmp[..len + 1] == tmp[..len] + [tmp[len]];
      ReversedAppend(tmp[..len], tmp[len]);
      if n <= 0x7F {
        return;
      }
      Narrower(n, bits - 7 * len);
      n := n / 128 - 1;
      len := len + 1;
      TmpFits(bits, len);
    }
  }

  lemma TmpFits(bits: nat, len: nat)
    requires 7 * len < bits
    ensures len < TmpSize(bits)
  {
  }

  lemma EncodedGroups(n: nat)
    ensures Groups(n, false) == Encoded(n) && Reversed([]) == []
  {
  }

  lemma GroupsStep(n: nat, more: bool)
    ensures var b := (if more then 0x80 else 0) + n % 128;
            && 0 <= b < 256
            && Groups(n, more) == if n <= 0x7F then [b] else Groups(n / 128 - 1, true) + [b]
  {
  }

  method WriteVarInt(n: nat, bits: nat) returns (out: seq<byte>)
    requires n < Pow2(bits) && bits > 0
    ensures out == Encoded(n)
  {
    hide Encoded, Pow;
    TmpFits(bits, 0);
    var tmp := new byte[TmpSize(bits)];
    var len := FillGroups(n, bits, tmp);
    out := [];
    ghost var all := tmp[..len + 1];
    var i := len;
    assert all[..i + 1] == all;
    while true
      invariant 0 <= i <= len && tmp[..len + 1] == all
      invariant out + Reversed(all[..i + 1]) == Encoded(n)
      decreases i
    {
      assert tmp[i] == all[i];
      assert all[..i + 1][..i] == all[..i];
      out := out + [tmp[i]];
      if i == 0 {
        break;
      }
      i := i - 1;
    }
    assert all[..0] == [];
  }

  // ---------------------------------------------------------------- reading

  /** The position of the first byte without a continuation bit, or the length if there is none. */
  ghost function FirstEnd(s: seq<byte>): (i: nat)
    ensures i <= |s| && (forall j :: 0 <= j < i ==> s[j] >= 0x80) && (i < |s| ==> s[i] < 0x80)
  {
    if s == [] || s[0] < 0x80 then 0 else 1 + FirstEnd(s[1..])
  }

  /** What reading a number of `bits` bits from a stream gives: end of data is a failure, excess bits are lost. */
  ghost function ReadResult(s: seq<byte>, bits: nat): Result<nat>
  {
    var i := FirstEnd(s);
    if i < |s| then Ok(Low(Decoded(s[..i + 1]), bits), s[i + 1..]) else Failure
  }

  lemma {:induction false} LowShlAdd(q: nat, z: nat, k: nat)
    ensures Low(Shl(q, k) + z, k) == Low(z, k)
    decreases k
  {
    if k > 0 {
      LowShlAdd(q, z / 2, k - 1);
      assert (Shl(q, k) + z) / 2 == Shl(q, k - 1) + z / 2;
    }
  }

  lemma LowAdd(x: nat, y: nat, k: nat)
    ensures Low(Low(x, k) + y, k) == Low(x + y, k)
  {
    LowShr(x, k);
    LowShlAdd(Shr(x, k), Low(x, k) + y, k);
  }

  lemma ShiftedIn(p: nat, d: byte, bits: nat)
    requires bits >= 7
    ensures Or(Low(Shl(Low(p, bits), 7), bits), And(d, 0x7F)) == Low(p * 128 + d % 128, bits)
  {
    hide Low, Shl, Or, And;
    assert Pow2(7) == 128;
    AndMask(d, 7);
    ShrIsDiv(d, 7);
    LowOfShl(Low(p, bits), 7, bits - 7);
    LowLow(p, bits, bits - 7);
    OrDisjoint(Low(p, bits - 7), d % 128, 7);
    ShlIsMul(p, 7);
    LowSplit(p * 128 + d % 128, 7, bits - 7);
    ShrLowOfShl(p, 7, d % 128);
  }

  method ReadVarInt(s: seq<byte>, bits: nat) returns (r: Result<nat>)
    requires bits >= 8
    ensures r == ReadResult(s, bits)
  {
    hide Low, Shl, Or, And, Pow;
    var n: nat := 0;
    var i := 0;
    ZeroBits(bits);
    assert s[..0] == [];
    while i < |s|
      invariant 0 <= i <= FirstEnd(s)
      invariant n == Low(Prefix(s[..i]), bits)
    {
      var chData := s[i];
      ShiftedIn(Prefix(s[..i]), chData, bits);
      assert s[..i + 1][..i] == s[..i];
      n := Or(Low(Shl(n, 7), bits), And(chData, 0x7F));
      ContinuationBit(chData);
      if And(chData, 0x80) != 0 {
        LowAdd(Prefix(s[..i]) * 128 + chData % 128, 1, bits);
        n := Low(n + 1, bits);
      } else {
        return Ok(n, s[i + 1..]);
      }
      i := i + 1;
    }
    r := Failure;
  }

  lemma ZeroBits(bits: nat)
    ensures Low(0, bits) == 0
  {
    PowPositive(2, bits);
    LowSmall(0, bits);
  }

  lemma ContinuationBit(d: byte)
    ensures And(d, 0x80) != 0 <==> d >= 0x80
    ensures d >= 0x80 ==> d % 128 == d - 0x80
    ensures d < 0x80 ==> d % 128 == d
  {
    assert Pow2(7) == 128 && Pow2(8) == 256;
    TopBit(d, 7);
  }

  /** A number that fits is read back from what was written, followed by anything. */
  lemma ReadWritten(n: nat, bits: nat, rest: seq<byte>)
    requires n < Pow2(bits)
    ensures ReadResult(Encoded(n) + rest, bits) == Ok(n, rest)
  {
    hide Encoded, Decoded, Low, Pow;
    DecodedEncoded(n);
    EndOfTerminated(Encoded(n), rest);
    LowSmall(n, bits);
    var e := Encoded(n);
    assert (e + rest)[..|e|] == e && (e + rest)[|e|..] == rest;
  }

  lemma {:induction false} EndOfTerminated(e: seq<byte>, rest: seq<byte>)
    requires Terminated(e)
    ensures FirstEnd(e + rest) == |e| - 1
  {
    var s := e + rest;
    assert forall i :: 0 <= i < |e| ==> s[i] == e[i];
    if |e| > 1 {
      assert s[1..] == e[1..] + rest;
      EndOfTerminated(e[1..], rest);
    }
  }

  // ---------------------------------------------------------------- compact sizes

  const MAX_SIZE: nat := 0x1000_0000

  function LittleEndian(w: nat, n: nat): (bs: seq<byte>)
    ensures |bs| == w
  {
    if w == 0 then [] else [n % 256] + LittleEndian(w - 1, n / 256)
  }

  function FromLittleEndian(bs: seq<byte>): nat
  {
    if bs == [] then 0 else bs[0] + 256 * FromLittleEndian(bs[1..])
  }

  lemma {:induction false} LittleEndianRoundTrip(w: nat, n: nat)
    requires n < Pow(256, w)
    ensures FromLittleEndian(LittleEndian(w, n)) == n
  {
    if w > 0 {
      LittleEndianRoundTrip(w - 1, n / 256);
      assert LittleEndian(w, n)[1..] == LittleEndian(w - 1, n / 256);
    }
  }

  lemma {:induction false} LittleEndianOf(bs: seq<byte>)
    ensures LittleEndian(|bs|, FromLittleEndian(bs)) == bs
    ensures FromLittleEndian(bs) < Pow(256, |bs|)
  {
    if bs != [] {
      LittleEndianOf(bs[1..]);
    }
  }

  function SizeOfCompactSize(n: nat): nat
  {
    if n < 253 then 1 else if n <= 0xFFFF then 3 else if n <= 0xFFFF_FFFF then 5 else 9
  }

  function CompactSize(n: nat): (bs: seq<byte>)
    ensures |bs| == SizeOfCompactSize(n)
  {
    if n < 253 then [n]
    else if n <= 0xFFFF then [253] + LittleEndian(2, n)
    else if n <= 0xFFFF_FFFF then [254] + LittleEndian(4, n)
    else [255] + LittleEndian(8, n)
  }

  /** A fixed number of little-endian bytes after the first one, refused below `least`. */
  function ReadSized(s: seq<byte>, w: nat, least: nat): Result<nat>
    requires |s| > 0
  {
    if |s| < 1 + w then Failure
    else
      var n := FromLittleEndian(s[1..1 + w]);
      if n < least || n > MAX_SIZE then Failure else Ok(n, s[1 + w..])
  }

  function ReadCompactSize(s: seq<byte>): Result<nat>
  {
    if s == [] then Failure
    else if s[0] < 253 then Ok(s[0], s[1..])
    else if s[0] == 253 then ReadSized(s, 2, 253)
    else if s[0] == 254 then ReadSized(s, 4, 0x10000)
    else ReadSized(s, 8, 0x1_0000_0000)
  }

  lemma ReadSizedMeans(s: seq<byte>, w: nat, least: nat, n: nat, rest: seq<byte>)
    requires |s| > 0
    ensures ReadSized(s, w, least) == Ok(n, rest) <==>
            least <= n <= MAX_SIZE && n < Pow(256, w) && s == [s[0]] + LittleEndian(w, n) + rest
  {
    hide LittleEndian, FromLittleEndian, Pow;
    if ReadSized(s, w, least) == Ok(n, rest) {
      LittleEndianOf(s[1..1 + w]);
      assert s == [s[0]] + s[1..1 + w] + s[1 + w..];
    }
    if least <= n <= MAX_SIZE && n < Pow(256, w) && s == [s[0]] + LittleEndian(w, n) + rest {
      LittleEndianRoundTrip(w, n);
      assert s[1..1 + w] == LittleEndian(w, n) && s[1 + w..] == rest;
    }
  }

  lemma Pow256()
    ensures Pow(256, 2) == 0x1_0000 && Pow(256, 4) == 0x1_0000_0000 && Pow(256, 8) == 0x1_0000_0000_0000_0000
  {
    assert Pow(256, 2) == 0x1_0000;
    PowAdd(256, 2, 2);
    PowAdd(256, 4, 4);
  }

  /** The reader accepts exactly what the writer writes, for sizes up to the limit: no other spelling of a size. */
  lemma CompactSizeExact(s: seq<byte>, n: nat, rest: seq<byte>)
    requires n < 0x1_0000_0000_0000_0000
    ensures ReadCompactSize(s) == Ok(n, rest) <==> n <= MAX_SIZE && s == CompactSize(n) + rest
  {
    hide LittleEndian, FromLittleEndian, Pow, ReadSized;
    Pow256();
    if s != [] {
      ReadSizedMeans(s, 2, 253, n, rest);
      ReadSizedMeans(s, 4, 0x10000, n, rest);
      ReadSizedMeans(s, 8, 0x1_0000_0000, n, rest);
      assert s == [s[0]] + s[1..];
      FirstByte(s, CompactSize(n), rest);
    }
  }

  lemma FirstByte(s: seq<byte>, c: seq<byte>, rest: seq<byte>)
    requires |c| > 0
    ensures s == c + rest ==> |s| > 0 && s[0] == c[0] && s[1..] == c[1..] + rest
  {
    if s == c + rest {
      assert (c + rest)[1..] == c[1..] + rest;
    }
  }
}
