/**
CCoins: the unspent outputs of one transaction. Spent outputs are null, and null
outputs at the end of the array are dropped.
*/
module Coins {

  import opened Bits
  import opened Results

  datatype TxOut = TxOut(nValue: int, scriptPubKey: seq<byte>, nRounds: int) {
    predicate IsNull()
    {
      nValue == -1
    }
  }

  const NULL_OUT := TxOut(-1, [], -10)

  datatype CCoins = CCoins(fCoinBase: bool, vout: seq<TxOut>, nHeight: int, nVersion: int) {
    predicate IsAvailable(n: nat)
    {
      n < |vout| && !vout[n].IsNull()
    }

    predicate IsPruned()
    {
      forall i :: 0 <= i < |vout| ==> vout[i].IsNull()
    }

    /** No spent output at the end of the array. */
    predicate IsClean()
    {
      vout == [] || !vout[|vout| - 1].IsNull()
    }
  }

  const EMPTY := CCoins(false, [], 0, 0)

  /** Equality of coins: all pruned coins are equal. */
  predicate SameCoins(a: CCoins, b: CCoins)
  {
    (a.IsPruned() && b.IsPruned()) || a == b
  }

  function DropNulls(vout: seq<TxOut>): (r: seq<TxOut>)
    ensures r <= vout
    ensures r == [] || !r[|r| - 1].IsNull()
    ensures forall i :: |r| <= i < |vout| ==> vout[i].IsNull()
  {
    if vout != [] && vout[|vout| - 1].IsNull() then DropNulls(vout[..|vout| - 1]) else vout
  }

  function Cleaned(c: CCoins): CCoins
  {
    c.(vout := DropNulls(c.vout))
  }

  method Cleanup(c: CCoins) returns (r: CCoins)
    ensures r == Cleaned(c)
  {
    var vout := c.vout;
    while |vout| > 0 && vout[|vout| - 1].IsNull()
      invariant DropNulls(vout) == DropNulls(c.vout)
    {
      vout := vout[..|vout| - 1];
    }
    r := c.(vout := vout);
  }

  /** Cleaning up changes no output's availability, and leaves nothing of pruned coins. */
  lemma CleanedKeeps(c: CCoins)
    ensures Cleaned(c).IsClean()
    ensures forall n: nat :: Cleaned(c).IsAvailable(n) <==> c.IsAvailable(n)
    ensures Cleaned(c).IsPruned() <==> c.IsPruned()
    ensures c.IsPruned() ==> Cleaned(c).vout == []
    ensures c.IsClean() ==> Cleaned(c) == c
  {
    var r := DropNulls(c.vout);
    assert forall i :: 0 <= i < |r| ==> r[i] == c.vout[i];
  }

  method Spend(c: CCoins, nPos: nat) returns (ok: bool, r: CCoins)
    ensures ok <==> c.IsAvailable(nPos)
    ensures !ok ==> r == c
    ensures forall n: nat :: r.IsAvailable(n) <==> c.IsAvailable(n) && (n != nPos || !ok)
    ensures forall n: nat :: r.IsAvailable(n) ==> c.IsAvailable(n) && r.vout[n] == c.vout[n]
    ensures ok ==> r.IsClean() && r.fCoinBase == c.fCoinBase && r.nHeight == c.nHeight && r.nVersion == c.nVersion
    ensures r.IsPruned() <==> forall n: nat :: c.IsAvailable(n) ==> ok && n == nPos
  {
    if nPos >= |c.vout| || c.vout[nPos].IsNull() {
      PrunedMeans(c);
      return false, c;
    }
    var spent := c.(vout := c.vout[nPos := NULL_OUT]);
    CleanedKeeps(spent);
    r := Cleanup(spent);
    ok := true;
    PrunedMeans(r);
    assert forall n: nat :: r.IsAvailable(n) ==> spent.IsAvailable(n);
    assert forall n: nat :: spent.IsAvailable(n) <==> c.IsAvailable(n) && n != nPos;
  }

  lemma PrunedMeans(c: CCoins)
    ensures c.IsPruned() <==> forall n: nat :: !c.IsAvailable(n)
  {
    if forall n: nat :: !c.IsAvailable(n) {
      forall i | 0 <= i < |c.vout| ensures c.vout[i].IsNull() {
        assert !c.IsAvailable(i);
      }
    }
  }

  /** What a view shows of an entry: pruned coins count as absent. */
  function Shown(c: CCoins): Option<CCoins>
  {
    if c.IsPruned() then None else Some(c)
  }
}
