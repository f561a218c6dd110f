/**
SHA-256 as a stream: Write may be called with any split of the message, and Finalize pads
it as section 5.1.1 of FIPS 180-4 says. The compression function is a parameter.
*/
module Sha256 {
  import opened Numbers
  import opened Bits
  import opened Streaming

  /** The last w bytes of a number, most significant first. */
  function BigEndian(w: nat, n: nat): (bs: seq<byte>)
    ensures |bs| == w
  {
    if w == 0 then [] else BigEndian(w - 1, n / 256) + [n % 256]
  }

  lemma {:induction false} BigEndianIsInjective(w: nat, m: nat, n: nat)
    requires m < Pow(256, w) && n < Pow(256, w) && BigEndian(w, m) == BigEndian(w, n)
    ensures m == n
  {
    if w > 0 {
      assert BigEndian(w, m)[..w - 1] == BigEndian(w - 1, m / 256);
      assert BigEndian(w, n)[..w - 1] == BigEndian(w - 1, n / 256);
      assert BigEndian(w, m)[w - 1] == m % 256 && BigEndian(w, n)[w - 1] == n % 256;
      BigEndianIsInjective(w - 1, m / 256, n / 256);
    }
  }

  /** The bytes that are written out determine the state. */
  lemma OutputDetermines(s: Words, t: Words, md: seq<byte>)
    requires Stored(x => BigEndian(4, x), s, md) && Stored(x => BigEndian(4, x), t, md)
    ensures s == t
  {
    hide BigEndian;
    assert Pow(256, 4) == WORD;
    forall i | 0 <= i < 8
      ensures s[i] == t[i]
    {
      BigEndianIsInjective(4, s[i], t[i]);
    }
  }

  /** How many bytes of 0x80 00 ... 00 precede the length. */
  function PadLength(n: nat): nat
  {
    1 + (119 - n % 64) % 64
  }

  function Pad(n: nat): (bs: seq<byte>)
    requires n > 0
    ensures |bs| == n
  {
    [0x80] + seq(n - 1, _ => 0)
  }

  /** The 64-bit byte counter. */
  function Wrapped(n: nat): nat
  {
    n % TWO64
  }

  /** What is appended to a message of n bytes: a one bit, zero bits, and the number of bits. */
  function Padding(n: nat): seq<byte>
  {
    Pad(PadLength(n)) + BigEndian(8, Wrapped(8 * n))
  }

  /** The padding fills whole blocks, and no shorter one of its form does. */
  lemma PaddingIsShortest(n: nat, k: nat)
    ensures (n + |Padding(n)|) % BLOCK == 0
    ensures k > 0 && (n + k + 8) % BLOCK == 0 ==> PadLength(n) <= k
  {
    hide BigEndian, Pad;
    var q, r := n / 64, n % 64;
    assert PadLength(n) == if r <= 55 then 56 - r else 120 - r;
  }

  lemma WrappedAdd(a: nat, b: nat)
    ensures Wrapped(Wrapped(a) + b) == Wrapped(a + b)
  {
  }

  lemma WrappedRest(a: nat)
    ensures Wrapped(a) % BLOCK == a % BLOCK && Wrapped(8 * Wrapped(a)) == Wrapped(8 * a)
  {
    var q, r := a / TWO64, a % TWO64;
    DivModUnique(a, BLOCK, q * (TWO64 / BLOCK) + r / BLOCK, r % BLOCK);
    DivModUnique(8 * a, TWO64, 8 * q + 8 * r / TWO64, 8 * r % TWO64);
  }

  /** The bit count is written in full unless it needs more than 64 bits. */
  lemma LengthIsExact(n: nat)
    ensures 8 * n < TWO64 ==> Padding(n) == Pad(PadLength(n)) + BigEndian(8, 8 * n)
  {
    hide BigEndian, Pad, PadLength;
  }

  /** The padding can be computed from the wrapped counter. */
  lemma PaddingParts(n: nat)
    ensures PadLength(Wrapped(n)) > 0
    ensures Pad(PadLength(Wrapped(n))) + BigEndian(8, Wrapped(8 * Wrapped(n))) == Padding(n)
  {
    hide BigEndian, Pad, Wrapped;
    WrappedRest(n);
  }

  class Hasher {
    const transform: (Words, seq<byte>) -> Words
    const iv: Words
    const buf: array<byte>
    var s: Words
    var bytes: nat
    ghost var msg: seq<byte>

    ghost predicate Valid()
      reads this, buf
    {
      Holds(|msg| % BLOCK)
    }

    /** The last `rest` bytes of the message are in the buffer, and the blocks before them are in the state. */
    ghost predicate Holds(rest: nat)
      reads this, buf
    {
      && buf.Length == BLOCK && bytes == Wrapped(|msg|)
      && rest <= |msg| && rest < BLOCK && (|msg| - rest) % BLOCK == 0
      && s == Chain(transform, iv, msg[..|msg| - rest])
      && buf[..rest] == msg[|msg| - rest..]
    }

    constructor (transform: (Words, seq<byte>) -> Words, iv: Words)
      ensures Valid() && msg == [] && this.transform == transform && this.iv == iv && fresh(buf)
    {
      this.transform, this.iv := transform, iv;
      buf := new byte[BLOCK];
      s := iv;
      bytes := 0;
      msg := [];
    }

    method Reset()
      requires Valid()
      modifies this
      ensures Valid() && msg == []
    {
      bytes := 0;
      s := iv;
      msg := [];
    }

    /** Fills the buffer and absorbs it. */
    method FillBuffer(data: seq<byte>, bufsize: nat)
      requires Holds(bufsize) && bufsize + |data| == BLOCK
      modifies this, buf
      ensures Holds(0) && msg == old(msg) + data
    {
      hide Chain, Wrapped;
      ghost var n := |msg| - bufsize;
      forall i | 0 <= i < |data| {
        buf[bufsize + i] := data[i];
      }
      ghost var block := msg[n..] + data;
      assert buf[..] == block;
      ChainBlock(transform, iv, msg[..n], block);
      assert msg + data == msg[..n] + block;
      WrappedAdd(|msg|, |data|);
      bytes := Wrapped(bytes + (BLOCK - bufsize));
      s := transform(s, buf[..]);
      msg := msg + data;
      assert msg[..|msg|] == msg;
    }

    /** Absorbs whole blocks straight from the data. */
    method AbsorbWhole(data: seq<byte>, blocks: nat)
      requires Holds(0) && |data| == BLOCK * blocks
      modifies this
      ensures Holds(0) && msg == old(msg) + data
    {
      hide Chain, Wrapped;
      ChainConcat(transform, iv, msg, data);
      assert msg[..|msg|] == msg && data[..BLOCK * blocks] == data;
      s := AbsorbBlocks(transform, s, data, blocks);
      WrappedAdd(|msg|, |data|);
      bytes := Wrapped(bytes + BLOCK * blocks);
      msg := msg + data;
      assert msg[..|msg|] == msg;
    }

    /** Fills the buffer with what remains. */
    method Stash(data: seq<byte>, bufsize: nat)
      requires Holds(bufsize) && bufsize + |data| < BLOCK
      modifies this, buf
      ensures Holds(bufsize + |data|) && msg == old(msg) + data
    {
      hide Chain, Wrapped;
      ghost var n := |msg| - bufsize;
      forall i | 0 <= i < |data| {
        buf[bufsize + i] := data[i];
      }
      assert buf[..bufsize + |data|] == msg[n..] + data;
      assert (msg + data)[..n] == msg[..n] && (msg + data)[n..] == msg[n..] + data;
      WrappedAdd(|msg|, |data|);
      bytes := Wrapped(bytes + |data|);
      msg := msg + data;
    }

    lemma RestIs(rest: nat)
      requires Holds(rest)
      ensures rest == |msg| % BLOCK == bytes % BLOCK
    {
      WrappedRest(|msg|);
    }

    /** Appends data to the message. */
    method Write(data: seq<byte>)
      requires Valid()
      modifies this, buf
      ensures Valid() && msg == old(msg) + data
    {
      hide Holds;
      RestIs(|msg| % BLOCK);
      var rest := data;
      var bufsize := bytes % 64;
      if bufsize != 0 && bufsize + |rest| >= 64 {
        var n := 64 - bufsize;
        FillBuffer(rest[..n], bufsize);
        rest := rest[n..];
        bufsize := 0;
        assert msg + rest == old(msg) + data;
      }
      if |rest| >= 64 {
        var blocks := |rest| / 64;
        var n := 64 * blocks;
        ghost var before := msg + rest;
        AbsorbWhole(rest[..n], blocks);
        rest := rest[n..];
        assert msg + rest == before;
      }
      Stash(rest, bufsize);
      RestIs(bufsize + |rest|);
    }

    /**
    The state after the padded message, for any message and any way it was written, as
    big-endian words. The length is exact for every message that the standard allows.
    */
    method Finalize() returns (digest: seq<byte>)
      requires Valid()
      modifies this, buf
      ensures Stored(x => BigEndian(4, x), Chain(transform, iv, old(msg) + Padding(old(|msg|))), digest)
      ensures 8 * old(|msg|) < TWO64 ==>
        Padding(old(|msg|)) == Pad(PadLength(old(|msg|))) + BigEndian(8, 8 * old(|msg|))
    {
      hide *;
      ghost var m := msg;
      PaddingParts(|m|);
      CounterIs();
      PaddingIsShortest(|m|, 1);
      var pad := Pad(PadLength(bytes));
      var sizedesc := BigEndian(8, Wrapped(8 * bytes));
      Write(pad);
      Write(sizedesc);
      assert msg == m + (pad + sizedesc);
      StateIs();
      LengthIsExact(|m|);
      digest := StoreWords(x => BigEndian(4, x), s);
    }

    lemma CounterIs()
      requires Valid()
      ensures bytes == Wrapped(|msg|)
    {
    }

    lemma StateIs()
      requires Valid() && |msg| % BLOCK == 0
      ensures s == Chain(transform, iv, msg)
    {
      assert msg[..|msg|] == msg;
    }
  }

  /** Every split of a message into writes gives the digest of the padded message. */
  method SplitsAgree(transform: (Words, seq<byte>) -> Words, iv: Words, parts: seq<seq<byte>>)
    returns (digest: seq<byte>)
    ensures Stored(x => BigEndian(4, x), Chain(transform, iv, Joined(parts) + Padding(|Joined(parts)|)), digest)
  {
    var h := new Hasher(transform, iv);
    var i := 0;
    while i < |parts|
      invariant 0 <= i <= |parts| && h.Valid() && fresh(h) && fresh(h.buf) && h.transform == transform && h.iv == iv
      invariant h.msg == Joined(parts[..i])
    {
      assert parts[..i + 1][..i] == parts[..i];
      h.Write(parts[i]);
      i := i + 1;
    }
    assert parts[..i] == parts;
    digest := h.Finalize();
  }
}
