/**
BLAKE2s as a stream. The last block, even a full one, is held back until the end, so that
exactly one block is compressed with the final flag and the byte counter of the whole
message, as section 3.3 of RFC 7693 says. The compression function is a parameter.
*/
module Blake2s {
  import opened Bits
  import opened Numbers
  import opened Streaming
  import opened VarInt

  /** A compression function takes the chaining value, a block, the two counter words and the final flag. */
  type Compression = (Words, seq<byte>, nat, nat, bool) -> Words

  /** The two words of the 64-bit byte counter. */
  function LowWord(n: nat): nat
  {
    n % WORD
  }

  function HighWord(n: nat): nat
  {
    n / WORD % WORD
  }

  /** Adding with carry counts modulo 2^64. */
  lemma CounterStep(n: nat, inc: nat)
    requires inc < WORD
    ensures var t0 := (LowWord(n) + inc) % WORD;
      && t0 == LowWord(n + inc)
      && (HighWord(n) + if t0 < inc then 1 else 0) % WORD == HighWord(n + inc)
  {
    var a, b := n % WORD, n / WORD;
    if a + inc < WORD {
      assert (n + inc) / WORD == b && (n + inc) % WORD == a + inc;
    } else {
      assert (n + inc) / WORD == b + 1 && (n + inc) % WORD == a + inc - WORD;
      HighStep(b);
    }
  }

  lemma HighStep(b: nat)
    ensures (b % WORD + 1) % WORD == (b + 1) % WORD
  {
  }

  /** One full block, with the count of bytes as part of the state. */
  function Stepped(f: Compression, last: bool, s: (Words, nat), block: seq<byte>): (Words, nat)
  {
    var n := s.1 + BLOCK;
    (f(s.0, block, LowWord(n), HighWord(n), last), n)
  }

  function Step(f: Compression, last: bool): ((Words, nat), seq<byte>) -> (Words, nat)
  {
    (s, block) => Stepped(f, last, s, block)
  }

  function Padded(block: seq<byte>): seq<byte>
    requires |block| <= BLOCK
  {
    block + seq(BLOCK - |block|, _ => 0)
  }

  /** The digest of a message: blocks before the last one, then the last one padded, with the final flag. */
  ghost function Digest(f: Compression, h: Words, msg: seq<byte>, count: nat): Words
    decreases |msg|
  {
    var n := count + |msg|;
    if |msg| <= BLOCK then f(h, Padded(msg), LowWord(n), HighWord(n), true)
    else
      var s := Step(f, false)((h, count), msg[..BLOCK]);
      Digest(f, s.0, msg[BLOCK..], s.1)
  }

  /** Everything but the last block is a plain chain. */
  lemma {:induction false} DigestSplit(f: Compression, h: Words, count: nat, a: seq<byte>, b: seq<byte>)
    requires |a| % BLOCK == 0 && |b| <= BLOCK && (b == [] ==> a == [])
    ensures var s := Chain(Step(f, false), (h, count), a);
      && s.1 == count + |a|
      && Digest(f, h, a + b, count) == f(s.0, Padded(b), LowWord(s.1 + |b|), HighWord(s.1 + |b|), true)
    decreases |a|
  {
    hide LowWord, HighWord, Padded;
    if a == [] {
      assert a + b == b;
    } else {
      var s := Step(f, false)((h, count), a[..BLOCK]);
      assert (a + b)[..BLOCK] == a[..BLOCK] && (a + b)[BLOCK..] == a[BLOCK..] + b;
      DigestSplit(f, s.0, s.1, a[BLOCK..], b);
    }
  }

  /** The bytes that are written out determine the chaining value. */
  lemma OutputDetermines(s: Words, t: Words, md: seq<byte>)
    requires Stored(x => LittleEndian(4, x), s, md) && Stored(x => LittleEndian(4, x), t, md)
    ensures s == t
  {
    hide LittleEndian, FromLittleEndian;
    assert Pow(256, 4) == WORD;
    forall i | 0 <= i < 8
      ensures s[i] == t[i]
    {
      LittleEndianRoundTrip(4, s[i]);
      LittleEndianRoundTrip(4, t[i]);
    }
  }

  class Context {
    const f: Compression
    const iv: Words
    const buf: array<byte>
    var h: Words
    var t0: nat
    var t1: nat
    var last: bool
    var buflen: nat
    ghost var count: nat
    ghost var msg: seq<byte>

    ghost predicate Counted()
      reads this
    {
      t0 == LowWord(count) && t1 == HighWord(count)
    }

    /** Whole blocks of the message are in the chaining value, the rest, at most one block, is in the buffer. */
    ghost predicate Holds(m: seq<byte>)
      reads this, buf
    {
      && buf.Length == BLOCK && buflen <= BLOCK && buflen <= |m| && (|m| - buflen) % BLOCK == 0 && !last && Counted()
      && (h, count) == Chain(Step(f, false), (iv, 0), m[..|m| - buflen])
      && buf[..buflen] == m[|m| - buflen..]
    }

    ghost predicate Valid()
      reads this, buf
    {
      Holds(msg) && (buflen == 0 ==> msg == [])
    }

    constructor (f: Compression, iv: Words)
      ensures Valid() && msg == [] && this.f == f && this.iv == iv && fresh(buf)
    {
      this.f, this.iv := f, iv;
      buf := new byte[BLOCK];
      h, t0, t1, last, buflen := iv, 0, 0, false, 0;
      count, msg := 0, [];
    }

    /** Compresses len bytes: whole blocks, or a single block of which only len bytes count. */
    method Compress(blocks: seq<byte>, len: nat)
      requires Counted() && (if len < BLOCK then |blocks| >= BLOCK else len % BLOCK == 0 && |blocks| >= len)
      modifies this`h, this`t0, this`t1, this`count
      ensures Counted()
      ensures len < BLOCK ==> count == old(count) + len
      ensures len < BLOCK ==>
        h == f(old(h), blocks[..BLOCK], LowWord(old(count) + len), HighWord(old(count) + len), last)
      ensures len >= BLOCK ==> (h, count) == Chain(Step(f, last), old((h, count)), blocks[..len])
    {
      hide LowWord, HighWord, Chain;
      var increment := if len < BLOCK then len else BLOCK;
      var at, left := 0, len;
      ghost var start := (h, count);
      NoBlocks(f, last, start);
      assert blocks[..0] == [];
      while true
        invariant Counted() && at + left == len
        invariant len < BLOCK ==> at == 0 && (h, count) == start
        invariant len >= BLOCK ==> at % BLOCK == 0 && left % BLOCK == 0 && left > 0
        invariant len >= BLOCK ==> (h, count) == Chain(Step(f, last), start, blocks[..at])
        decreases left
      {
        var block := blocks[at..at + BLOCK];
        CounterStep(count, increment);
        if len >= BLOCK {
          ChainBlock(Step(f, last), start, blocks[..at], block);
          assert blocks[..at + BLOCK] == blocks[..at] + block;
        }
        t0 := (t0 + increment) % WORD;
        t1 := (t1 + if t0 < increment then 1 else 0) % WORD;
        count := count + increment;
        h := f(h, block, t0, t1, last);
        at := at + increment;
        left := left - increment;
        if left == 0 {
          break;
        }
      }
      assert blocks[..at] == blocks[..len];
    }

    /** Completes the buffer, which is known not to hold the last block, and compresses it. */
    method CompressBuffer(data: seq<byte>)
      requires Holds(msg) && buflen > 0 && buflen + |data| == BLOCK
      modifies this, buf
      ensures Holds(msg) && buflen == 0 && msg == old(msg) + data
    {
      hide Chain, LowWord, HighWord;
      ghost var n := |msg| - buflen;
      forall i | 0 <= i < |data| {
        buf[buflen + i] := data[i];
      }
      ghost var block := msg[n..] + data;
      assert buf[..] == block;
      Compress(buf[..], BLOCK);
      ChainConcat(Step(f, false), (iv, 0), msg[..n], block);
      assert block[..BLOCK] == block;
      assert msg + data == msg[..n] + block;
      buflen := 0;
      msg := msg + data;
      assert msg[..|msg|] == msg;
    }

    /** Compresses whole blocks straight from the data. */
    method CompressWhole(data: seq<byte>)
      requires Holds(msg) && buflen == 0 && |data| > 0 && |data| % BLOCK == 0
      modifies this
      ensures Holds(msg) && buflen == 0 && msg == old(msg) + data
    {
      hide Chain, LowWord, HighWord;
      Compress(data, |data|);
      ChainConcat(Step(f, false), (iv, 0), msg, data);
      assert data[..|data|] == data && msg[..|msg|] == msg;
      msg := msg + data;
      assert msg[..|msg|] == msg;
    }

    method Stash(data: seq<byte>)
      requires Holds(msg) && buflen + |data| <= BLOCK
      modifies this, buf
      ensures Holds(msg) && msg == old(msg) + data && buflen == old(buflen) + |data|
    {
      hide Chain, LowWord, HighWord;
      ghost var n := |msg| - buflen;
      forall i | 0 <= i < |data| {
        buf[buflen + i] := data[i];
      }
      assert buf[..buflen + |data|] == msg[n..] + data;
      assert (msg + data)[..n] == msg[..n] && (msg + data)[n..] == msg[n..] + data;
      buflen := buflen + |data|;
      msg := msg + data;
    }

    /** Appends data to the message. */
    method Update(data: seq<byte>)
      requires Valid()
      modifies this, buf
      ensures Valid() && msg == old(msg) + data
    {
      hide Holds;
      var rest := data;
      var fill := BLOCK - BufferLength();
      if |rest| > fill {
        if buflen != 0 {
          CompressBuffer(rest[..fill]);
          rest := rest[fill..];
          assert msg + rest == old(msg) + data;
        }
        if |rest| > BLOCK {
          var stashlen := if |rest| % BLOCK != 0 then |rest| % BLOCK else BLOCK;
          var n := |rest| - stashlen;
          ghost var before := msg + rest;
          CompressWhole(rest[..n]);
          rest := rest[n..];
          assert msg + rest == before;
        }
      }
      Stash(rest);
    }

    function BufferLength(): (n: nat)
      requires Holds(msg)
      reads this, buf
      ensures n == buflen <= BLOCK
    {
      buflen
    }

    /** The digest of the message, however it was written, as little-endian words. */
    method Final() returns (md: seq<byte>)
      requires Valid()
      modifies this, buf
      ensures Stored(x => LittleEndian(4, x), Digest(f, iv, old(msg), 0), md)
    {
      hide Chain, LowWord, HighWord;
      ghost var n := |msg| - buflen;
      DigestSplit(f, iv, 0, msg[..n], msg[n..]);
      assert msg == msg[..n] + msg[n..];
      last := true;
      forall i | buflen <= i < BLOCK {
        buf[i] := 0;
      }
      assert buf[..] == Padded(msg[n..]);
      ghost var s := (h, count);
      Compress(buf[..], buflen);
      assert buf[..][..BLOCK] == buf[..];
      if buflen == BLOCK {
        OneBlock(f, true, s, buf[..]);
      }
      md := StoreWords(x => LittleEndian(4, x), h);
    }
  }

  lemma OneBlock(f: Compression, last: bool, s: (Words, nat), block: seq<byte>)
    requires |block| == BLOCK
    ensures Chain(Step(f, last), s, block) == Step(f, last)(s, block)
  {
    ChainBlock(Step(f, last), s, [], block);
    assert [] + block == block;
  }

  lemma NoBlocks(f: Compression, last: bool, s: (Words, nat))
    ensures Chain(Step(f, last), s, []) == s
  {
  }

  /** Every split of a message into updates gives the digest of the message. */
  method SplitsAgree(f: Compression, iv: Words, parts: seq<seq<byte>>) returns (md: seq<byte>)
    ensures Stored(x => LittleEndian(4, x), Digest(f, iv, Joined(parts), 0), md)
  {
    hide Digest;
    var c := new Context(f, iv);
    var i := 0;
    while i < |parts|
      invariant 0 <= i <= |parts| && c.Valid() && fresh(c) && fresh(c.buf) && c.f == f && c.iv == iv
      invariant c.msg == Joined(parts[..i])
    {
      assert parts[..i + 1][..i] == parts[..i];
      c.Update(parts[i]);
      i := i + 1;
    }
    assert parts[..i] == parts;
    md := c.Final();
  }
}
