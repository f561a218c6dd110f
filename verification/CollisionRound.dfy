/**
One round of the Equihash solver. The table is sorted on its leading bytes, runs of
equal prefixes are paired up, and the merged rows are written back into the same
table over rows that have already been read.
*/
module CollisionRound {
  import opened Numbers
  import opened Bits
  import opened BitPacking
  import opened CollisionTree
  import opened StepRow

  type Bytes = seq<byte>

  /** How rows are laid out and compared in one round. */
  datatype Layout = Layout(hashLen: nat, lenIndices: nat, cmp: nat, trim: nat) {
    predicate Sound()
    {
      cmp <= hashLen && trim <= hashLen && lenIndices % 4 == 0
    }

    function Width(): nat
    {
      hashLen + lenIndices
    }

    /** Rows of w bytes hold the rows of this round, and rows of width bytes the merged ones. */
    predicate Fits(w: nat, width: nat)
    {
      trim <= hashLen && hashLen + lenIndices <= w && hashLen - trim + 2 * lenIndices <= width
    }
  }

  /**
  What the calls of the cancellation callback from number `first` up to `end` answered: the
  search was stopped exactly when the last of them asked for it, and no earlier one did.
  */
  ghost predicate Polled(cancelled: nat -> bool, first: nat, end: nat, stopped: bool)
  {
    first <= end &&
    if stopped then first < end && cancelled(end - 1) && forall q :: first <= q < end - 1 ==> !cancelled(q)
    else forall q :: first <= q < end ==> !cancelled(q)
  }

  ghost predicate Shaped(x: seq<Bytes>, y: Layout)
  {
    forall i :: 0 <= i < |x| ==> |x[i]| == y.Width()
  }

  ghost predicate Distinguished(a: Bytes, b: Bytes, y: Layout)
    requires |a| == |b| == y.Width()
  {
    Disjoint(IndexList(a[y.hashLen..y.hashLen + y.lenIndices]), IndexList(b[y.hashLen..y.hashLen + y.lenIndices]))
  }

  /** Two rows that a round merges: equal leading bytes and no index in common. */
  ghost predicate Compatible(a: Bytes, b: Bytes, y: Layout)
    requires |a| == |b| == y.Width() && y.Sound()
  {
    a[..y.cmp] == b[..y.cmp] && Distinguished(a, b, y)
  }

  ghost function Merge(a: Bytes, b: Bytes, y: Layout): Bytes
    requires |a| == |b| == y.Width() && y.Sound()
  {
    Merged(a, b, y.hashLen, y.lenIndices, y.trim)
  }

  /** The rows merged from `a` and each compatible row of `rest`. */
  ghost function PairsWith(a: Bytes, rest: seq<Bytes>, y: Layout): multiset<Bytes>
    requires |a| == y.Width() && Shaped(rest, y) && y.Sound()
  {
    if rest == [] then multiset{}
    else (if Compatible(a, rest[0], y) then multiset{Merge(a, rest[0], y)} else multiset{})
         + PairsWith(a, rest[1..], y)
  }

  /** The rows merged from every unordered pair of compatible rows, one for each pair. */
  ghost function AllPairs(x: seq<Bytes>, y: Layout): multiset<Bytes>
    requires Shaped(x, y) && y.Sound()
  {
    if x == [] then multiset{} else PairsWith(x[0], x[1..], y) + AllPairs(x[1..], y)
  }

  lemma {:induction false} PairsWithNone(a: Bytes, rest: seq<Bytes>, y: Layout)
    requires |a| == y.Width() && Shaped(rest, y) && y.Sound()
    requires forall i :: 0 <= i < |rest| ==> a[..y.cmp] != rest[i][..y.cmp]
    ensures PairsWith(a, rest, y) == multiset{}
  {
    if rest != [] {
      PairsWithNone(a, rest[1..], y);
    }
  }

  lemma {:induction false} PairsWithConcat(a: Bytes, g: seq<Bytes>, r: seq<Bytes>, y: Layout)
    requires |a| == y.Width() && Shaped(g, y) && Shaped(r, y) && y.Sound()
    ensures PairsWith(a, g + r, y) == PairsWith(a, g, y) + PairsWith(a, r, y)
  {
    if g == [] {
      assert g + r == r;
    } else {
      assert (g + r)[1..] == g[1..] + r;
      PairsWithConcat(a, g[1..], r, y);
    }
  }

  /** Pairs across two parts that never collide contribute nothing. */
  lemma {:induction false} AllPairsSplit(g: seq<Bytes>, r: seq<Bytes>, y: Layout)
    requires Shaped(g, y) && Shaped(r, y) && y.Sound()
    requires forall i, j :: 0 <= i < |g| && 0 <= j < |r| ==> g[i][..y.cmp] != r[j][..y.cmp]
    ensures AllPairs(g + r, y) == AllPairs(g, y) + AllPairs(r, y)
  {
    hide PairsWith;
    if g == [] {
      assert g + r == r;
    } else {
      assert (g + r)[1..] == g[1..] + r;
      AllPairsSplit(g[1..], r, y);
      PairsWithConcat(g[0], g[1..], r, y);
      PairsWithNone(g[0], r, y);
    }
  }

  // ---------------------------------------------------------------- sorting

  ghost predicate SortedBy(x: seq<Bytes>, len: nat)
    requires forall i :: 0 <= i < |x| ==> len <= |x[i]|
  {
    forall i, j :: 0 <= i < j < |x| ==> !LexLess(x[j][..len], x[i][..len])
  }

  lemma {:induction false} LexTransitive(a: seq<nat>, b: seq<nat>, c: seq<nat>)
    requires |a| == |b| == |c|
    ensures LexLess(a, b) && !LexLess(c, b) ==> LexLess(a, c)
    ensures !LexLess(b, a) && !LexLess(c, b) ==> !LexLess(c, a)
  {
    if a != [] {
      LexTransitive(a[1..], b[1..], c[1..]);
    }
  }

  /** After the first row that differs from a run, every later row differs from it. */
  lemma RunEnds(x: seq<Bytes>, len: nat, i: nat, m: nat, q: nat)
    requires forall p :: 0 <= p < |x| ==> len <= |x[p]|
    requires SortedBy(x, len) && i < m <= q < |x| && x[i][..len] != x[m][..len]
    ensures x[i][..len] != x[q][..len]
  {
    var a, b, c := x[i][..len], x[m][..len], x[q][..len];
    LexTotal(a, b);
    LexTotal(a, c);
    LexTotal(b, c);
    LexTransitive(a, b, c);
  }

  function Insert(row: Bytes, x: seq<Bytes>, len: nat): seq<Bytes>
    requires len <= |row| && forall i :: 0 <= i < |x| ==> len <= |x[i]|
  {
    if x == [] || LexLess(row[..len], x[0][..len]) then [row] + x
    else [x[0]] + Insert(row, x[1..], len)
  }

  lemma {:induction false} InsertContents(row: Bytes, x: seq<Bytes>, len: nat)
    requires len <= |row| && forall i :: 0 <= i < |x| ==> len <= |x[i]|
    ensures multiset(Insert(row, x, len)) == multiset(x) + multiset{row}
    ensures forall j :: 0 <= j < |Insert(row, x, len)| ==>
              Insert(row, x, len)[j] == row || Insert(row, x, len)[j] in x
    ensures forall i :: 0 <= i < |Insert(row, x, len)| ==> len <= |Insert(row, x, len)[i]|
  {
    hide LexLess;
    if x != [] {
      InsertContents(row, x[1..], len);
      assert x == [x[0]] + x[1..];
    }
  }

  lemma SortedCons(a: Bytes, x: seq<Bytes>, len: nat)
    requires len <= |a| && forall i :: 0 <= i < |x| ==> len <= |x[i]|
    requires SortedBy(x, len) && forall j :: 0 <= j < |x| ==> !LexLess(x[j][..len], a[..len])
    ensures forall i :: 0 <= i < |[a] + x| ==> len <= |([a] + x)[i]|
    ensures SortedBy([a] + x, len)
  {
    hide LexLess;
    var r := [a] + x;
    forall i, j | 0 <= i < j < |r| ensures !LexLess(r[j][..len], r[i][..len]) {
      assert r[j] == x[j - 1];
      if i > 0 {
        assert r[i] == x[i - 1];
      }
    }
  }

  lemma {:induction false} InsertSorts(row: Bytes, x: seq<Bytes>, len: nat)
    requires len <= |row| && forall i :: 0 <= i < |x| ==> len <= |x[i]|
    requires SortedBy(x, len)
    ensures multiset(Insert(row, x, len)) == multiset(x) + multiset{row}
    ensures forall i :: 0 <= i < |Insert(row, x, len)| ==> len <= |Insert(row, x, len)[i]|
    ensures SortedBy(Insert(row, x, len), len)
  {
    hide LexLess;
    InsertContents(row, x, len);
    if x != [] {
      LexTotal(row[..len], x[0][..len]);
      if LexLess(row[..len], x[0][..len]) {
        forall j | 0 <= j < |x| ensures !LexLess(x[j][..len], row[..len]) {
          LexTransitive(row[..len], x[0][..len], x[j][..len]);
          LexTotal(x[0][..len], x[j][..len]);
        }
        SortedCons(row, x, len);
      } else {
        InsertSorts(row, x[1..], len);
        InsertContents(row, x[1..], len);
        SortedCons(x[0], Insert(row, x[1..], len), len);
      }
    }
  }

  /** Stands in for std::sort with CompareSR: some sorted permutation of the table. */
  method Sort(x: seq<Bytes>, len: nat) returns (r: seq<Bytes>)
    requires forall i :: 0 <= i < |x| ==> len <= |x[i]|
    ensures multiset(r) == multiset(x)
    ensures forall i :: 0 <= i < |r| ==> len <= |r[i]|
    ensures SortedBy(r, len)
  {
    hide Insert, LexLess;
    r := [];
    for i := 0 to |x|
      invariant forall p :: 0 <= p < |r| ==> len <= |r[p]|
      invariant multiset(r) == multiset(x[..i]) && SortedBy(r, len)
    {
      InsertSorts(x[i], r, len);
      r := Insert(x[i], r, len);
      assert x[..i + 1] == x[..i] + [x[i]];
    }
    assert x[..|x|] == x;
  }

  // ---------------------------------------------------------------- the round

  /** The length of the run of rows that collide with row i. */
  method RunLength(x: seq<Bytes>, i: nat, cmp: nat) returns (j: nat)
    requires i < |x| && forall p :: i <= p < |x| ==> cmp <= |x[p]|
    ensures 1 <= j && i + j <= |x|
    ensures forall p :: i <= p < i + j ==> x[p][..cmp] == x[i][..cmp]
    ensures i + j < |x| ==> x[i + j][..cmp] != x[i][..cmp]
  {
    j := 1;
    while i + j < |x|
      invariant 1 <= j && i + j <= |x|
      invariant forall p :: i <= p < i + j ==> x[p][..cmp] == x[i][..cmp]
    {
      var same := HasCollision(x[i], x[i + j], cmp);
      if !same {
        return;
      }
      j := j + 1;
    }
  }

  lemma GroupSplits(x: seq<Bytes>, i: nat, j: nat, y: Layout)
    requires Shaped(x, y) && y.Sound() && SortedBy(x, y.cmp) && 1 <= j && i + j <= |x|
    requires forall p :: i <= p < i + j ==> x[p][..y.cmp] == x[i][..y.cmp]
    requires i + j < |x| ==> x[i + j][..y.cmp] != x[i][..y.cmp]
    ensures AllPairs(x[i..], y) == AllPairs(x[i..i + j], y) + AllPairs(x[i + j..], y)
  {
    hide AllPairs, SortedBy;
    var g, r := x[i..i + j], x[i + j..];
    assert x[i..] == g + r;
    forall p, q | 0 <= p < |g| && 0 <= q < |r| ensures g[p][..y.cmp] != r[q][..y.cmp] {
      RunEnds(x, y.cmp, i, i + j, i + j + q);
      assert g[p] == x[i + p];
    }
    AllPairsSplit(g, r, y);
  }

  /** Steps 2b-2c: append the merged rows of one run to the overflow list. */
  method CollideRun(x: seq<Bytes>, i: nat, j: nat, y: Layout, w: nat, width: nat, xc: seq<Bytes>)
    returns (out: seq<Bytes>)
    requires y.Sound() && y.Fits(w, width) && 1 <= j && i + j <= |x| && Shaped(x[i..i + j], y)
    requires forall p :: i <= p < i + j ==> |x[p]| == y.Width() && x[p][..y.cmp] == x[i][..y.cmp]
    ensures multiset(out) == multiset(xc) + AllPairs(x[i..i + j], y)
  {
    hide PairsWith, AllPairs, Merge, Distinguished;
    out := xc;
    ghost var g := x[i..i + j];
    ghost var total := multiset(xc) + AllPairs(g, y);
    assert g[0..] == g;
    for l := 0 to j - 1
      invariant multiset(out) + AllPairs(g[l..], y) == total
    {
      PairsStep(g, l, y);
      out := CollideRow(x, i, j, l, y, w, width, out);
    }
    LastPairs(g, j - 1, y);
  }

  lemma PairsStep(g: seq<Bytes>, l: nat, y: Layout)
    requires Shaped(g, y) && y.Sound() && l < |g|
    ensures AllPairs(g[l..], y) == PairsWith(g[l], g[l + 1..], y) + AllPairs(g[l + 1..], y)
  {
    assert g[l..][1..] == g[l + 1..];
  }

  lemma LastPairs(g: seq<Bytes>, l: nat, y: Layout)
    requires Shaped(g, y) && y.Sound() && |g| <= l + 1 && l <= |g|
    ensures AllPairs(g[l..], y) == multiset{}
  {
  }

  method CollideRow(x: seq<Bytes>, i: nat, j: nat, l: nat, y: Layout, w: nat, width: nat, xc: seq<Bytes>)
    returns (out: seq<Bytes>)
    requires y.Sound() && y.Fits(w, width) && l < j && i + j <= |x| && Shaped(x[i..i + j], y)
    requires forall p :: i <= p < i + j ==> |x[p]| == y.Width() && x[p][..y.cmp] == x[i][..y.cmp]
    ensures multiset(out) == multiset(xc) + PairsWith(x[i..i + j][l], x[i..i + j][l + 1..], y)
  {
    hide PairsWith;
    out := xc;
    ghost var g := x[i..i + j];
    ghost var total := multiset(xc) + PairsWith(g[l], g[l + 1..], y);
    for m := l + 1 to j
      invariant multiset(out) + PairsWith(g[l], g[m..], y) == total
    {
      assert g[l] == x[i + l] && g[m] == x[i + m];
      PairsWithStep(g, l, m, y);
      var distinct := DistinctIndices(x[i + l], x[i + m], y.hashLen, y.lenIndices);
      if distinct {
        var row := MergeRows(x[i + l], x[i + m], y.hashLen, y.lenIndices, y.trim, w, width);
        out := out + [row];
      }
    }
    NoPairs(g[l], g[j..], y);
  }

  lemma PairsWithStep(g: seq<Bytes>, l: nat, m: nat, y: Layout)
    requires Shaped(g, y) && y.Sound() && l < |g| && m < |g|
    ensures PairsWith(g[l], g[m..], y)
         == (if Compatible(g[l], g[m], y) then multiset{Merge(g[l], g[m], y)} else multiset{})
          + PairsWith(g[l], g[m + 1..], y)
  {
    assert g[m..][1..] == g[m + 1..];
  }

  lemma NoPairs(a: Bytes, rest: seq<Bytes>, y: Layout)
    requires |a| == y.Width() && y.Sound() && rest == []
    ensures PairsWith(a, rest, y) == multiset{}
  {
  }

  /** Steps 2d and 2e: move rows from the overflow list into slots that have already been read. */
  method StoreInPlace(x: seq<Bytes>, posFree: nat, limit: nat, xc: seq<Bytes>)
    returns (x': seq<Bytes>, posFree': nat, xc': seq<Bytes>)
    requires posFree <= limit <= |x|
    ensures |x'| == |x| && x'[limit..] == x[limit..]
    ensures posFree <= posFree' <= limit && (posFree' < limit ==> xc' == [])
    ensures multiset(x'[..posFree']) + multiset(xc') == multiset(x[..posFree]) + multiset(xc)
  {
    x', posFree', xc' := x, posFree, xc;
    while posFree' < limit && |xc'| > 0
      invariant |x'| == |x| && x'[limit..] == x[limit..]
      invariant posFree <= posFree' <= limit
      invariant multiset(x'[..posFree']) + multiset(xc') == multiset(x[..posFree]) + multiset(xc)
      decreases |xc'|
    {
      var row := xc'[|xc'| - 1];
      ghost var before := x'[..posFree'];
      assert xc' == xc'[..|xc'| - 1] + [row];
      x' := x'[posFree' := row];
      posFree' := posFree' + 1;
      xc' := xc'[..|xc'| - 1];
      assert x'[..posFree'] == before + [row];
    }
  }

  /**
  A whole round on a sorted table, unless it is cancelled. No slot is read after it was
  written: `posFree` never passes `i`, so the rows from `i` on are still the ones that were sorted.
  */
  method Round(x0: seq<Bytes>, y: Layout, w: nat, width: nat, cancelled: nat -> bool, polls0: nat)
    returns (x: seq<Bytes>, stopped: bool, polls: nat)
    requires |x0| > 0 && Shaped(x0, y) && y.Sound() && y.Fits(w, width) && SortedBy(x0, y.cmp)
    ensures !stopped ==> multiset(x) == AllPairs(x0, y)
    ensures Polled(cancelled, polls0, polls, stopped)
  {
    hide AllPairs, PairsWith, SortedBy;
    x, stopped, polls := x0, false, polls0;
    var i, posFree := 0, 0;
    var xc: seq<Bytes> := [];
    assert x0[0..] == x0;
    while i < |x| - 1
      invariant 0 <= posFree <= i <= |x| == |x0| && Polled(cancelled, polls0, polls, false)
      invariant x[i..] == x0[i..]
      invariant multiset(x[..posFree]) + multiset(xc) + AllPairs(x0[i..], y) == AllPairs(x0, y)
    {
      Unread(x, x0, i);
      var j := RunLength(x, i, y.cmp);
      assert x[i..i + j] == x0[i..i + j];
      GroupSplits(x0, i, j, y);
      xc := CollideRun(x, i, j, y, w, width, xc);
      ghost var before := x;
      x, posFree, xc := StoreInPlace(x, posFree, i + j, xc);
      assert x[i + j..] == before[i..][j..] == x0[i + j..];
      i := i + j;
      polls := polls + 1;
      if cancelled(polls - 1) {
        return x, true, polls;
      }
    }
    LastPairs(x0, i, y);
    x, posFree, xc := StoreInPlace(x, posFree, |x|, xc);
    if |xc| > 0 {
      assert x[..posFree] == x;
      x := x + xc;
    } else if posFree < |x| {
      x := x[..posFree];
    } else {
      assert x[..posFree] == x;
    }
  }

  lemma Unread(x: seq<Bytes>, x0: seq<Bytes>, i: nat)
    requires |x| == |x0| && i <= |x| && x[i..] == x0[i..]
    ensures forall p :: i <= p < |x| ==> x[p] == x0[p]
  {
    forall p | i <= p < |x| ensures x[p] == x0[p] {
      assert x[i..][p - i] == x0[i..][p - i];
    }
  }
}
