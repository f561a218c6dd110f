/** Folding a compression function over the 64-byte blocks of a byte string. */
module Streaming {
  import opened Numbers
  import opened Bits

  const BLOCK: nat := 64

  /** The chaining value: eight 32-bit words. */
  type Words = s: seq<nat> | |s| == 8 && forall i :: 0 <= i < 8 ==> s[i] < WORD witness [0, 0, 0, 0, 0, 0, 0, 0]

  /** The state after all whole blocks. */
  function Chain<S>(step: (S, seq<byte>) -> S, s: S, data: seq<byte>): S
  {
    if |data| < BLOCK then s else Chain(step, step(s, data[..BLOCK]), data[BLOCK..])
  }

  /** Blocks can be absorbed in several calls. */
  lemma {:induction false} ChainConcat<S>(step: (S, seq<byte>) -> S, s: S, a: seq<byte>, b: seq<byte>)
    requires |a| % BLOCK == 0
    ensures Chain(step, s, a + b) == Chain(step, Chain(step, s, a), b)
    decreases |a|
  {
    if a == [] {
      assert a + b == b;
    } else {
      assert (a + b)[..BLOCK] == a[..BLOCK] && (a + b)[BLOCK..] == a[BLOCK..] + b;
      ChainConcat(step, step(s, a[..BLOCK]), a[BLOCK..], b);
    }
  }

  lemma ChainBlock<S>(step: (S, seq<byte>) -> S, s: S, a: seq<byte>, b: seq<byte>)
    requires |a| % BLOCK == 0 && |b| == BLOCK
    ensures Chain(step, s, a + b) == step(Chain(step, s, a), b)
  {
    ChainConcat(step, s, a, b);
    var t := Chain(step, s, a);
    assert b[..BLOCK] == b && b[BLOCK..] == [];
    assert Chain(step, step(t, b), []) == step(t, b);
  }

  /** Absorbs the blocks of a stretch of data one at a time. */
  method AbsorbBlocks<S>(step: (S, seq<byte>) -> S, s0: S, data: seq<byte>, blocks: nat) returns (s: S)
    requires BLOCK * blocks <= |data|
    ensures s == Chain(step, s0, data[..BLOCK * blocks])
  {
    s := s0;
    var i := 0;
    while i < blocks
      invariant 0 <= i <= blocks && s == Chain(step, s0, data[..BLOCK * i])
    {
      var b := data[BLOCK * i..BLOCK * i + BLOCK];
      ChainBlock(step, s0, data[..BLOCK * i], b);
      assert data[..BLOCK * (i + 1)] == data[..BLOCK * i] + b;
      s := step(s, b);
      i := i + 1;
    }
  }

  /** The message that several calls make up. */
  function Joined(parts: seq<seq<byte>>): seq<byte>
  {
    if parts == [] then [] else Joined(parts[..|parts| - 1]) + parts[|parts| - 1]
  }

  /** The eight words, four bytes each, one after the other. */
  ghost predicate Stored(store: nat -> seq<byte>, s: Words, md: seq<byte>)
  {
    |md| == 32 && forall i :: 0 <= i < 8 ==> md[4 * i..4 * i + 4] == store(s[i])
  }

  /** Writes out the chaining value. */
  method StoreWords(store: nat -> seq<byte>, s: Words) returns (md: seq<byte>)
    requires forall x :: |store(x)| == 4
    ensures Stored(store, s, md)
  {
    md := [];
    var i := 0;
    while i < 8
      invariant 0 <= i <= 8 && |md| == 4 * i
      invariant forall j :: 0 <= j < i ==> md[4 * j..4 * j + 4] == store(s[j])
    {
      ghost var before := md;
      md := md + store(s[i]);
      assert forall j :: 0 <= j < i ==> md[4 * j..4 * j + 4] == before[4 * j..4 * j + 4];
      i := i + 1;
    }
  }
}
