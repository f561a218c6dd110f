/**
BasicSolve: generate the first list, run the collision rounds in place, and hand the
colliding pairs of the last table to the caller. The solutions handed over are exactly
the byte strings IsValidSolution accepts.
*/
module EquihashSolver {
  import opened Numbers
  import opened Bits
  import opened BitPacking
  import opened CollisionTree
  import opened StepRow
  import opened CollisionRound
  import opened EquihashTables
  import opened EquihashParams

  /** The search space: all indices below 2^(CollisionBits + 1). */
  ghost function SettingOf(p: Params, gen: nat -> seq<byte>): (s: Setting)
    requires p.Admissible() && Oracle(p, gen)
    ensures s.Sound() && s.len == p.HashLength() && s.c == p.CollisionBytes() && s.bound == Pow2(p.IndexBits())
  {
    PowWord();
    PowMonotone(2, p.IndexBits(), 32);
    Setting(Leaves(p, gen), p.HashLength(), p.CollisionBytes(), Pow2(p.IndexBits()))
  }

  lemma HeightFits(p: Params, h: nat)
    requires p.Admissible() && h <= p.k
    ensures Span(p.CollisionBytes(), h) <= p.HashLength()
  {
    SpanMonotone(p.CollisionBytes(), h, p.k + 1);
  }

  // ---------------------------------------------------------------- solutions and trees

  /** A packed string is a solution exactly when it packs the indices of a tree that solves the puzzle. */
  lemma SolutionIsTree(p: Params, gen: nat -> seq<byte>, soln: seq<byte>)
    requires p.Admissible() && Oracle(p, gen) && Span(p.CollisionBytes(), p.k) <= p.HashLength()
    ensures IsSolution(p, gen, soln) <==> Solves(SettingOf(p, gen), p.IndexBits(), p.k - 1, soln)
  {
    hide IsSolution, FinalTree, Minimal, Pow;
    var s, bits, h := SettingOf(p, gen), p.IndexBits(), p.k - 1;
    if IsSolution(p, gen, soln) {
      var t := SolutionTree(p, gen, soln);
      assert FinalTree(s, t, h) && soln == Minimal(bits, Indices(t));
    }
    if Solves(s, bits, h, soln) {
      var t :| FinalTree(s, t, h) && soln == Minimal(bits, Indices(t));
      TreeSolution(p, gen, t);
    }
  }

  lemma TreeSolution(p: Params, gen: nat -> seq<byte>, t: Tree)
    requires p.Admissible() && Oracle(p, gen) && Span(p.CollisionBytes(), p.k) <= p.HashLength()
    requires FinalTree(SettingOf(p, gen), t, p.k - 1)
    ensures IsSolution(p, gen, Minimal(p.IndexBits(), Indices(t)))
  {
    hide Sum, Collides, Valid, Zero, Minimal, Unpacked, Pow, Leaves, Distinct;
    var s, ids := SettingOf(p, gen), Indices(t);
    IndexCount(t, p.k);
    MinimalSize(p, ids);
    ValidMeans(s.leaf, s.len, s.c, t, p.k);
    TreeDetermined(t, TreeOf(ids, p.k), p.k);
  }

  lemma SolutionTree(p: Params, gen: nat -> seq<byte>, soln: seq<byte>) returns (t: Tree)
    requires p.Admissible() && Oracle(p, gen) && IsSolution(p, gen, soln)
    requires Span(p.CollisionBytes(), p.k) <= p.HashLength()
    ensures FinalTree(SettingOf(p, gen), t, p.k - 1)
    ensures soln == Minimal(p.IndexBits(), Indices(t))
  {
    hide Sum, Collides, Valid, Zero, Minimal, Unpacked, Pow, Leaves, Distinct;
    var s, ids := SettingOf(p, gen), Unpacked(p.IndexBits(), soln);
    SolutionSize(p, soln);
    t := TreeOf(ids, p.k);
    ValidMeans(s.leaf, s.len, s.c, t, p.k);
  }

  // ---------------------------------------------------------------- the last table

  /** The solution packed in the index part of a row. */
  ghost function Soln(row: Bytes, hashLen: nat, bits: nat): Bytes
    requires hashLen <= |row|
  {
    Minimal(bits, IndexList(row[hashLen..]))
  }

  /** `x` is the complete table of height h, laid out for the final round; solutions use `bits` bits an index. */
  ghost predicate LastTable(s: Setting, bits: nat, h: nat, x: seq<Bytes>, y: Layout)
  {
    && s.Sound() && Span(s.c, h) <= s.len && Span(s.c, h + 1) <= s.len
    && ElementSize(bits) && s.bound == Pow2(bits) && bits * Pow2(h + 1) % 8 == 0
    && Tabled(s, multiset(x), h)
    && y == RoundLayout(s, h, s.len - Span(s.c, h), 0)
    && Shaped(x, y) && y.Sound() && DistinctKeys(x, y)
  }

  /** The packed index list of a tree over two rows of the last table that xors to zero. */
  ghost predicate Solves(s: Setting, bits: nat, h: nat, soln: Bytes)
    requires s.Sound() && Span(s.c, h + 1) <= s.len
  {
    exists t :: FinalTree(s, t, h) && soln == Minimal(bits, Indices(t))
  }

  lemma OrderedBelow(s: Setting, bits: nat, l: Tree, r: Tree, h: nat)
    requires s.Sound() && Span(s.c, h) <= s.len && InTable(s, l, h) && InTable(s, r, h)
    requires ElementSize(bits) && s.bound == Pow2(bits) && bits * Pow2(h + 1) % 8 == 0
    ensures var ids := Indices(Ordered(l, r));
            && Proper(Pow2(bits), ids) && Words(ids) && |ids| == Pow2(h + 1)
            && 2 * (4 * Pow2(h)) == 4 * |ids| == |Table(INDEX_BYTES, ids)|
            && IndexList(Table(INDEX_BYTES, ids)) == ids
            && Unpacked(bits, Minimal(bits, ids)) == ids
  {
    hide Valid, Pow, Unpacked, Minimal, Table, IndexList, LexLess;
    var ids := Indices(Ordered(l, r));
    OrderedChoice(s, l, r, h);
    IndexCount(Ordered(l, r), h + 1);
    BelowWords(ids, s.bound);
    IndexListOfTable(ids);
    UnpackedMinimal(bits, ids);
    DoublePow(h + 1);
  }

  lemma DoublePow(k: nat)
    requires k > 0
    ensures 2 * (4 * Pow2(k - 1)) == 4 * Pow2(k)
  {
  }

  lemma BelowWords(ids: seq<nat>, bound: nat)
    requires Below(ids, bound) && bound <= WORD
    ensures Words(ids)
  {
  }

  /** One pair of rows of the last table, and the tree over it. */
  lemma PairTree(s: Setting, bits: nat, h: nat, x: seq<Bytes>, y: Layout, i: nat, j: nat) returns (t: Tree)
    requires LastTable(s, bits, h, x, y) && i < |x| && j < |x|
    ensures Compatible(x[i], x[j], y) <==> FinalTree(s, t, h)
    ensures |Merge(x[i], x[j], y)| == y.hashLen + 2 * y.lenIndices
    ensures Merge(x[i], x[j], y)[y.hashLen..] == Table(INDEX_BYTES, Indices(t))
    ensures Proper(Pow2(bits), Indices(t)) && 2 * y.lenIndices == 4 * |Indices(t)|
    ensures Soln(Merge(x[i], x[j], y), y.hashLen, bits) == Minimal(bits, Indices(t))
    ensures Unpacked(bits, Minimal(bits, Indices(t))) == Indices(t)
  {
    hide Compatible, Merge, Table, InTable, FinalTree, RowOf, Pow, IndexList, Minimal, Unpacked, Indices;
    hide Proper, Tabled, DistinctKeys, Shaped;
    var l := TreeOfRow(s, x, h, i);
    var r := TreeOfRow(s, x, h, j);
    t := Ordered(l, r);
    FinalCompatible(s, l, r, h, y);
    OrderedBelow(s, bits, l, r, h);
    MergeSuffix(x[i], x[j], y);
  }

  /** Soundness: whatever the last table yields solves the puzzle. */
  lemma FinalSound(s: Setting, bits: nat, h: nat, x: seq<Bytes>, y: Layout, row: Bytes)
    requires LastTable(s, bits, h, x, y) && row in AllPairs(x, y)
    ensures y.hashLen <= |row| && Solves(s, bits, h, Soln(row, y.hashLen, bits))
  {
    hide AllPairs, Compatible, Merge, FinalTree, Tabled, Soln, Pow, Minimal, Indices, Table, Unpacked, Proper;
    var i, j := AllPairsFrom(x, row, y);
    var t := PairTree(s, bits, h, x, y, i, j);
  }

  /** Completeness: every solution is packed in a row the last table yields. */
  lemma FinalComplete(s: Setting, bits: nat, h: nat, x: seq<Bytes>, y: Layout, soln: Bytes) returns (row: Bytes)
    requires LastTable(s, bits, h, x, y) && Solves(s, bits, h, soln)
    ensures row in AllPairs(x, y) && y.hashLen <= |row| && Soln(row, y.hashLen, bits) == soln
  {
    hide AllPairs, Compatible, Merge, InTable, RowOf, Tabled, Pow, Zero, Sum, Minimal, Indices, Table, IndexList;
    var t :| FinalTree(s, t, h) && soln == Minimal(bits, Indices(t));
    NodeParts(s, t, h);
    var i := RowPosition(s, x, t.left, h);
    var j := RowPosition(s, x, t.right, h);
    DifferentRows(s, t.left, t.right, h);
    FinalCompatible(s, t.left, t.right, h, y);
    FinalCompatible(s, t.right, t.left, h, y);
    OrderedBelow(s, bits, t.left, t.right, h);
    var a, b := if i < j then i else j, if i < j then j else i;
    AllPairsHas(x, a, b, y);
    row := Merge(x[a], x[b], y);
    MergeSuffix(x[a], x[b], y);
  }

  /** Different rows of the last table pack into different solutions. */
  lemma FinalInjective(s: Setting, bits: nat, h: nat, x: seq<Bytes>, y: Layout, row: Bytes, row': Bytes)
    requires LastTable(s, bits, h, x, y) && row in AllPairs(x, y) && row' in AllPairs(x, y)
    ensures y.hashLen <= |row| && y.hashLen <= |row'|
    ensures Soln(row, y.hashLen, bits) == Soln(row', y.hashLen, bits) ==> row == row'
  {
    hide AllPairs, Compatible, Merge, FinalTree, Tabled, Soln, Minimal, Unpacked, Pow, Table, Indices, Zero, Proper;
    var i, j := AllPairsFrom(x, row, y);
    var i', j' := AllPairsFrom(x, row', y);
    var t := PairTree(s, bits, h, x, y, i, j);
    var t' := PairTree(s, bits, h, x, y, i', j');
    FinalRowHash(x[i], x[j], y);
    FinalRowHash(x[i'], x[j'], y);
    if Soln(row, y.hashLen, bits) == Soln(row', y.hashLen, bits) {
      ZerosEqual(row[..y.hashLen], row'[..y.hashLen]);
      assert row == row[..y.hashLen] + row[y.hashLen..] && row' == row'[..y.hashLen] + row'[y.hashLen..];
    }
  }

  lemma ZerosEqual(a: Bytes, b: Bytes)
    requires |a| == |b| && Zero(a) && Zero(b)
    ensures a == b
  {
  }

  lemma FinalRowHash(a: Bytes, b: Bytes, y: Layout)
    requires |a| == |b| == y.Width() && y.Sound() && y.cmp == y.hashLen && y.trim == 0 && Compatible(a, b, y)
    ensures |Merge(a, b, y)| == y.hashLen + 2 * y.lenIndices && Zero(Merge(a, b, y)[..y.hashLen])
  {
    hide LexLess, Distinguished, XorBytes;
    var hl := y.hashLen;
    assert a[0..hl] == a[..hl] && b[0..hl] == b[..hl];
    ZeroXor(a[..hl], b[..hl]);
    assert Merge(a, b, y)[..hl] == XorBytes(a[0..hl], b[0..hl]);
  }

  // ---------------------------------------------------------------- handing solutions over

  /** The rows whose solutions have been handed over so far, in order. */
  ghost predicate Handed(handed: seq<Bytes>, rows: seq<Bytes>, hashLen: nat, bits: nat)
  {
    && |handed| == |rows|
    && forall i :: 0 <= i < |rows| ==> hashLen <= |rows[i]| && handed[i] == Soln(rows[i], hashLen, bits)
  }

  /** All solutions handed over were refused, except the last one when the search stopped there. */
  ghost predicate Refused(handed: seq<Bytes>, validBlock: Bytes -> bool, found: bool)
  {
    && (forall i :: 0 <= i < |handed| - 1 ==> !validBlock(handed[i]))
    && (|handed| > 0 ==> (validBlock(handed[|handed| - 1]) <==> found))
    && (|handed| == 0 ==> !found)
  }

  lemma HandOver(handed: seq<Bytes>, rows: seq<Bytes>, row: Bytes, soln: Bytes, hashLen: nat, bits: nat,
                 validBlock: Bytes -> bool)
    requires Handed(handed, rows, hashLen, bits) && Refused(handed, validBlock, false)
    requires hashLen <= |row| && soln == Soln(row, hashLen, bits)
    ensures Handed(handed + [soln], rows + [row], hashLen, bits)
    ensures Refused(handed + [soln], validBlock, validBlock(soln))
  {
  }

  /** One pair of the final round: the merged row, whether its indices are distinct, and its solution. */
  method FinalPair(x: seq<Bytes>, a: nat, b: nat, y: Layout, w: nat, width: nat, cBitLen: nat,
                   ghost s: Setting, ghost h: nat)
    returns (distinct: bool, res: Bytes, soln: Bytes)
    requires LastTable(s, cBitLen + 1, h, x, y) && y.Fits(w, width) && a < |x| && b < |x|
    ensures distinct <==> Distinguished(x[a], x[b], y)
    ensures distinct ==> res == Merge(x[a], x[b], y) && y.hashLen <= |res| && soln == Soln(res, y.hashLen, cBitLen + 1)
  {
    hide Tabled, FinalTree, Merged, Soln, Minimal, Unpacked, Table, Pow, Indices, Proper, IndexList, Disjoint,
      Compatible, DistinctKeys, Masked;
    ghost var t := PairTree(s, cBitLen + 1, h, x, y, a, b);
    res := MergeRows(x[a], x[b], y.hashLen, y.lenIndices, 0, w, width);
    distinct := DistinctIndices(x[a], x[b], y.hashLen, y.lenIndices);
    soln := [];
    if distinct {
      MaskedProper(cBitLen + 1, Indices(t));
      soln := PackIndexBytes(res[y.hashLen..], cBitLen, Indices(t));
    }
  }

  /** The innermost loop of the final round: row l of a run against the later rows. */
  method HandRow(validBlock: Bytes -> bool, x: seq<Bytes>, i: nat, j: nat, l: nat, y: Layout, w: nat, width: nat,
                 cBitLen: nat, handed0: seq<Bytes>, ghost rows0: seq<Bytes>, ghost s: Setting, ghost h: nat)
    returns (found: bool, handed: seq<Bytes>, ghost rows: seq<Bytes>)
    requires LastTable(s, cBitLen + 1, h, x, y) && y.Fits(w, width) && l < j && i + j <= |x|
    requires forall q :: i <= q < i + j ==> x[q][..y.cmp] == x[i][..y.cmp]
    requires Handed(handed0, rows0, y.hashLen, cBitLen + 1) && Refused(handed0, validBlock, false)
    ensures Handed(handed, rows, y.hashLen, cBitLen + 1) && Refused(handed, validBlock, found)
    ensures multiset(rows) <= multiset(rows0) + PairsWith(x[i..i + j][l], x[i..i + j][l + 1..], y)
    ensures !found ==> multiset(rows) == multiset(rows0) + PairsWith(x[i..i + j][l], x[i..i + j][l + 1..], y)
  {
    hide PairsWith, Tabled, Handed, Refused, Merge, Soln, Pow, Span, Distinguished, DistinctKeys;
    found, handed, rows := false, handed0, rows0;
    ghost var g := x[i..i + j];
    ghost var total := multiset(rows0) + PairsWith(g[l], g[l + 1..], y);
    for m := l + 1 to j
      invariant !found
      invariant Handed(handed, rows, y.hashLen, cBitLen + 1) && Refused(handed, validBlock, false)
      invariant multiset(rows) + PairsWith(g[l], g[m..], y) == total
    {
      assert g[l] == x[i + l] && g[m] == x[i + m];
      PairsWithStep(g, l, m, y);
      var distinct, res, soln := FinalPair(x, i + l, i + m, y, w, width, cBitLen, s, h);
      if distinct {
        HandOver(handed, rows, res, soln, y.hashLen, cBitLen + 1, validBlock);
        handed := handed + [soln];
        rows := rows + [res];
        if validBlock(soln) {
          return true, handed, rows;
        }
      }
    }
    NoPairs(g[l], g[j..], y);
  }

  /** All pairs of one run of colliding rows. */
  method HandRun(validBlock: Bytes -> bool, x: seq<Bytes>, i: nat, j: nat, y: Layout, w: nat, width: nat,
                 cBitLen: nat, handed0: seq<Bytes>, ghost rows0: seq<Bytes>, ghost s: Setting, ghost h: nat)
    returns (found: bool, handed: seq<Bytes>, ghost rows: seq<Bytes>)
    requires LastTable(s, cBitLen + 1, h, x, y) && y.Fits(w, width) && 1 <= j && i + j <= |x|
    requires forall q :: i <= q < i + j ==> x[q][..y.cmp] == x[i][..y.cmp]
    requires Handed(handed0, rows0, y.hashLen, cBitLen + 1) && Refused(handed0, validBlock, false)
    ensures Handed(handed, rows, y.hashLen, cBitLen + 1) && Refused(handed, validBlock, found)
    ensures multiset(rows) <= multiset(rows0) + AllPairs(x[i..i + j], y)
    ensures !found ==> multiset(rows) == multiset(rows0) + AllPairs(x[i..i + j], y)
  {
    hide PairsWith, AllPairs, Tabled, Handed, Refused, Soln, Pow, Span, DistinctKeys;
    found, handed, rows := false, handed0, rows0;
    ghost var g := x[i..i + j];
    ghost var total := multiset(rows0) + AllPairs(g, y);
    assert g[0..] == g;
    for l := 0 to j - 1
      invariant !found
      invariant Handed(handed, rows, y.hashLen, cBitLen + 1) && Refused(handed, validBlock, false)
      invariant multiset(rows) + AllPairs(g[l..], y) == total
    {
      PairsStep(g, l, y);
      found, handed, rows := HandRow(validBlock, x, i, j, l, y, w, width, cBitLen, handed, rows, s, h);
      if found {
        return;
      }
    }
    LastPairs(g, j - 1, y);
  }

  /** The final round on a sorted table, unless it is cancelled. */
  method HandAll(validBlock: Bytes -> bool, cancelled: nat -> bool, polls0: nat, x: seq<Bytes>, y: Layout,
                 w: nat, width: nat, cBitLen: nat, ghost s: Setting, ghost h: nat)
    returns (found: bool, stopped: bool, polls: nat, handed: seq<Bytes>, ghost rows: seq<Bytes>)
    requires LastTable(s, cBitLen + 1, h, x, y) && y.Fits(w, width) && SortedBy(x, y.cmp) && |x| > 1
    ensures Handed(handed, rows, y.hashLen, cBitLen + 1) && Refused(handed, validBlock, found)
    ensures multiset(rows) <= AllPairs(x, y)
    ensures !found && !stopped ==> multiset(rows) == AllPairs(x, y)
    ensures Polled(cancelled, polls0, polls, stopped) && !(found && stopped)
  {
    hide PairsWith, AllPairs, Tabled, Soln, Pow, Span, SortedBy, DistinctKeys, Handed, Refused, LastTable;
    LastTableFacts(s, cBitLen + 1, h, x, y);
    NoneHanded(validBlock, y.hashLen, cBitLen + 1);
    found, stopped, polls, handed, rows := false, false, polls0, [], [];
    var i := 0;
    assert x[0..] == x;
    while i < |x| - 1
      invariant 0 <= i <= |x| && !found && !stopped && Polled(cancelled, polls0, polls, false)
      invariant Handed(handed, rows, y.hashLen, cBitLen + 1) && Refused(handed, validBlock, false)
      invariant multiset(rows) + AllPairs(x[i..], y) == AllPairs(x, y)
    {
      var j := RunLength(x, i, y.cmp);
      GroupSplits(x, i, j, y);
      found, handed, rows := HandRun(validBlock, x, i, j, y, w, width, cBitLen, handed, rows, s, h);
      if found {
        return;
      }
      i := i + j;
      polls := polls + 1;
      if cancelled(polls - 1) {
        stopped := true;
        return;
      }
    }
    LastPairs(x, i, y);
  }

  lemma NoneHanded(validBlock: Bytes -> bool, hashLen: nat, bits: nat)
    ensures Handed([], [], hashLen, bits) && Refused([], validBlock, false)
  {
  }

  ghost predicate NoRepeats(handed: seq<Bytes>)
  {
    forall i, j :: 0 <= i < j < |handed| ==> handed[i] != handed[j]
  }

  /** What the rows handed over say about the solutions handed over. */
  lemma HandedSolutions(s: Setting, bits: nat, h: nat, x: seq<Bytes>, y: Layout, handed: seq<Bytes>, rows: seq<Bytes>)
    requires LastTable(s, bits, h, x, y) && Handed(handed, rows, y.hashLen, bits)
    requires multiset(rows) <= AllPairs(x, y)
    ensures forall soln :: soln in handed ==> Solves(s, bits, h, soln)
    ensures NoRepeats(handed)
    ensures multiset(rows) == AllPairs(x, y) ==> forall soln :: Solves(s, bits, h, soln) ==> soln in handed
  {
    hide AllPairs, Tabled, Soln, Solves, Pow;
    forall soln | soln in handed ensures Solves(s, bits, h, soln) {
      var i :| 0 <= i < |handed| && handed[i] == soln;
      assert rows[i] in multiset(rows);
      FinalSound(s, bits, h, x, y, rows[i]);
    }
    forall i, j | 0 <= i < j < |handed| ensures handed[i] != handed[j] {
      assert rows[i] in multiset(rows) && rows[j] in multiset(rows);
      FinalInjective(s, bits, h, x, y, rows[i], rows[j]);
      AllPairsOnce(x, rows[i], y);
      TwiceInMultiset(rows, i, j);
    }
    if multiset(rows) == AllPairs(x, y) {
      forall soln | Solves(s, bits, h, soln) ensures soln in handed {
        var row := FinalComplete(s, bits, h, x, y, soln);
        assert row in multiset(rows);
        var i :| 0 <= i < |rows| && rows[i] == row;
        assert handed[i] == soln;
      }
    }
  }

  // ---------------------------------------------------------------- the first list

  lemma LeafInputAt(p: Params, gen: nat -> seq<byte>, g: nat, i: nat)
    requires p.Admissible() && Oracle(p, gen) && i < p.IndicesPerHashOutput()
    ensures 0 <= i * p.n / 8 && i * p.n / 8 + p.n / 8 <= |gen(g)|
    ensures LeafInput(p, gen, g * p.IndicesPerHashOutput() + i) == gen(g)[i * p.n / 8..i * p.n / 8 + p.n / 8]
  {
    var per := p.IndicesPerHashOutput();
    SliceFits(p.n, per, i);
    DivModUnique(g * per + i, per, g, i);
  }

  /** Rows of the leaves 0, 1, 2, ... in order. */
  ghost predicate LeafList(p: Params, gen: nat -> seq<byte>, x: seq<Bytes>)
    requires p.Admissible() && Oracle(p, gen) && Span(p.CollisionBytes(), 0) <= p.HashLength()
  {
    forall j :: 0 <= j < |x| ==> x[j] == Row(Leaves(p, gen), p.HashLength(), p.CollisionBytes(), Leaf(j), 0)
  }

  /** The rows of one hash output, as far as the list still needs them. */
  method AppendHash(p: Params, gen: nat -> seq<byte>, g: nat, size: nat, x0: seq<Bytes>) returns (x: seq<Bytes>)
    requires p.Admissible() && Oracle(p, gen) && Span(p.CollisionBytes(), 0) <= p.HashLength()
    requires |x0| == g * p.IndicesPerHashOutput() < size <= WORD && LeafList(p, gen, x0)
    ensures |x0| < |x| <= size && LeafList(p, gen, x)
    ensures |x| < size ==> |x| == (g + 1) * p.IndicesPerHashOutput()
  {
    hide Row, Leaves, Table, Rebased, Oracle, LeafInput, Span, BytesOf;
    LeafFits(p);
    x := x0;
    var tmpHash := gen(g);
    var i: nat := 0;
    var per := p.IndicesPerHashOutput();
    assert per > 0;
    while i < per && |x| < size
      invariant i <= per && |x| == |x0| + i <= size && LeafList(p, gen, x)
    {
      LeafInputAt(p, gen, g, i);
      LeafRowIsRow(p, gen, g * per + i);
      var row := LeafRow(p, tmpHash[i * p.n / 8..i * p.n / 8 + p.n / 8], g * per + i, p.FullWidth());
      x := x + [row];
      i := i + 1;
    }
    MulStep(per, g + 1);
  }

  method FirstList(p: Params, gen: nat -> seq<byte>, cancelled: nat -> bool)
    returns (x: seq<Bytes>, stopped: bool, polls: nat)
    requires p.Admissible() && Oracle(p, gen) && Span(p.CollisionBytes(), 0) <= p.HashLength()
    ensures !stopped ==> |x| == Pow2(p.IndexBits()) && LeafList(p, gen, x)
    ensures Polled(cancelled, 0, polls, stopped)
  {
    hide LeafList, Oracle, Span;
    ghost var s := SettingOf(p, gen);
    var initSize := Pow2(p.IndexBits());
    EmptyLeafList(p, gen);
    x, stopped, polls := [], false, 0;
    var g: nat := 0;
    while |x| < initSize
      invariant |x| <= initSize && LeafList(p, gen, x) && Polled(cancelled, 0, polls, false)
      invariant |x| < initSize ==> |x| == g * p.IndicesPerHashOutput()
      decreases initSize - |x|
    {
      x := AppendHash(p, gen, g, initSize, x);
      g := g + 1;
      polls := polls + 1;
      if cancelled(polls - 1) {
        return x, true, polls;
      }
    }
  }

  lemma EmptyLeafList(p: Params, gen: nat -> seq<byte>)
    requires p.Admissible() && Oracle(p, gen) && Span(p.CollisionBytes(), 0) <= p.HashLength()
    ensures LeafList(p, gen, [])
  {
  }

  lemma {:induction false} CountOnce<T>(x: seq<T>, v: T)
    requires forall i, j :: 0 <= i < j < |x| ==> x[i] != x[j]
    ensures v in x ==> multiset(x)[v] == 1
  {
    if x != [] {
      var n := |x| - 1;
      assert x == x[..n] + [x[n]];
      CountOnce(x[..n], v);
    }
  }

  /** The first list is the table of height 0. */
  lemma FirstTabled(p: Params, gen: nat -> seq<byte>, x: seq<Bytes>)
    requires p.Admissible() && Oracle(p, gen) && Span(p.CollisionBytes(), 0) <= p.HashLength()
    requires |x| == Pow2(p.IndexBits()) && LeafList(p, gen, x)
    ensures Tabled(SettingOf(p, gen), multiset(x), 0)
  {
    hide Row, Pow, Leaves;
    var s := SettingOf(p, gen);
    forall j | 0 <= j < |x| ensures InTable(s, Leaf(j), 0) && x[j] == RowOf(s, Leaf(j), 0) {
    }
    forall i, j | 0 <= i < j < |x| ensures x[i] != x[j] {
      DifferentRows(s, Leaf(i), Leaf(j), 0);
    }
    forall row | row in multiset(x) ensures multiset(x)[row] == 1 && Represented(s, row, 0) {
      CountOnce(x, row);
      var j :| 0 <= j < |x| && x[j] == row;
      assert InTable(s, Leaf(j), 0) && row == RowOf(s, Leaf(j), 0);
    }
    forall t | InTable(s, t, 0) ensures RowOf(s, t, 0) in multiset(x) {
      assert t == Leaf(t.index) && Indices(t)[0] == t.index;
      assert x[t.index] == RowOf(s, t, 0);
    }
  }

  // ---------------------------------------------------------------- BasicSolve

  /** Steps 2a-2g for rounds 1 to rounds-1, stopping early on an empty table or when cancelled. */
  method Rounds(c: nat, len: nat, rounds: nat, width: nat, x0: seq<Bytes>, cancelled: nat -> bool, polls0: nat,
                ghost s: Setting)
    returns (x: seq<Bytes>, hashLen: nat, lenIndices: nat, stopped: bool, polls: nat)
    requires s.Sound() && s.c == c && s.len == len && rounds > 0 && Span(c, rounds) <= len
    requires c <= 4 && len == Span(c, rounds + 1) && width == 2 * c + 4 * Pow2(rounds - 1)
    requires Span(c, 0) <= len && Span(c, rounds - 1) <= len && Tabled(s, multiset(x0), 0)
    ensures !stopped ==> Tabled(s, multiset(x), rounds - 1)
    ensures !stopped && |x| > 0 ==> hashLen == len - Span(c, rounds - 1) && lenIndices == 4 * Pow2(rounds - 1)
    ensures Polled(cancelled, polls0, polls, stopped)
  {
    hide Tabled, AllPairs, SortedBy, Shaped, Uniform;
    x, stopped, polls := x0, false, polls0;
    var r := 1;
    hashLen, lenIndices := len, 4;
    while r < rounds && |x| > 0
      invariant 1 <= r <= rounds && Span(c, r - 1) <= len && Polled(cancelled, polls0, polls, false)
      invariant Tabled(s, multiset(x), r - 1)
      invariant hashLen == len - Span(c, r - 1) && lenIndices == 4 * Pow2(r - 1)
    {
      SpanMonotone(c, r, rounds);
      var y := Layout(hashLen, lenIndices, c, c);
      RoundWidths(c, rounds, r);
      x, stopped, polls := RoundOf(x, y, width, cancelled, polls, s, r - 1);
      if stopped {
        return;
      }
      hashLen := hashLen - c;
      lenIndices := lenIndices * 2;
      r := r + 1;
    }
    if r < rounds {
      assert multiset(x) == multiset{};
      EmptyStays(s, r - 1, rounds - 1);
    }
  }

  /** One round with its calls of the cancellation callback: after sorting, after every run, and at the end. */
  method RoundOf(x0: seq<Bytes>, y: Layout, width: nat, cancelled: nat -> bool, polls0: nat,
                 ghost s: Setting, ghost h: nat)
    returns (x: seq<Bytes>, stopped: bool, polls: nat)
    requires s.Sound() && Span(s.c, h) <= s.len && Span(s.c, h + 1) <= s.len && |x0| > 0
    requires Tabled(s, multiset(x0), h) && y == RoundLayout(s, h, s.c, s.c) && y.Fits(width, width)
    ensures !stopped ==> Tabled(s, multiset(x), h + 1)
    ensures Polled(cancelled, polls0, polls, stopped)
  {
    hide Tabled, AllPairs, SortedBy, Shaped, Uniform, Span, Pow;
    RoundKeeps(s, x0, h, y);
    PrefixFits(x0, y);
    x := Sort(x0, y.cmp);
    polls := polls0 + 1;
    if cancelled(polls0) {
      return x, true, polls;
    }
    RoundKeeps(s, x, h, y);
    ghost var sorted := x;
    x, stopped, polls := Round(x, y, width, width, cancelled, polls);
    if stopped {
      return;
    }
    assert Tabled(s, AllPairs(sorted, y), h + 1);
    polls := polls + 1;
    stopped := cancelled(polls - 1);
  }

  lemma PrefixFits(x: seq<Bytes>, y: Layout)
    requires Shaped(x, y) && y.Sound()
    ensures forall i :: 0 <= i < |x| ==> y.cmp <= |x[i]|
  {
  }

  /** The table that the rounds end with is ready for the final round, in any order. */
  lemma IsLastTable(p: Params, gen: nat -> seq<byte>, x: seq<Bytes>, y: Layout)
    requires p.Admissible() && Oracle(p, gen)
    requires Span(p.CollisionBytes(), p.k - 1) <= p.HashLength() && Span(p.CollisionBytes(), p.k) <= p.HashLength()
    requires Tabled(SettingOf(p, gen), multiset(x), p.k - 1)
    requires y == RoundLayout(SettingOf(p, gen), p.k - 1, p.HashLength() - Span(p.CollisionBytes(), p.k - 1), 0)
    ensures LastTable(SettingOf(p, gen), p.IndexBits(), p.k - 1, x, y)
  {
    hide Tabled, Pow, Span;
    WholeSolution(p);
    TableShaped(SettingOf(p, gen), x, p.k - 1, y);
  }

  /** How a search ends. Reaching the end of the function leaves the caller without a defined answer. */
  datatype Outcome = Returned(value: bool) | NoReturn | Cancelled

  /** More than one valid tree is left for the final round. */
  ghost predicate Crowded(p: Params, gen: nat -> seq<byte>)
    requires p.Admissible() && Oracle(p, gen)
  {
    HeightFits(p, p.k - 1);
    var s, h := SettingOf(p, gen), p.k - 1;
    exists t, u :: InTable(s, t, h) && InTable(s, u, h) && t != u
  }

  /**
  `handed` are the solutions passed to `validBlock`, in order, and `polls` is the number of
  calls of `cancelled`. Unless one is accepted or the search is cancelled, they are all the
  solutions there are. The search then returns false only if the final round had nothing to
  compare; otherwise the function ends without a return statement.
  */
  method BasicSolve(p: Params, gen: nat -> seq<byte>, validBlock: Bytes -> bool, cancelled: nat -> bool)
    returns (outcome: Outcome, handed: seq<Bytes>, polls: nat)
    requires p.Admissible() && Oracle(p, gen)
    ensures forall soln :: soln in handed ==> IsSolution(p, gen, soln)
    ensures NoRepeats(handed)
    ensures Refused(handed, validBlock, outcome == Returned(true))
    ensures Polled(cancelled, 0, polls, outcome == Cancelled)
    ensures outcome == Returned(false) || outcome == NoReturn ==>
      forall soln :: IsSolution(p, gen, soln) ==> soln in handed
    ensures outcome == Returned(false) ==> !Crowded(p, gen)
    ensures outcome == Returned(true) || outcome == NoReturn ==> Crowded(p, gen)
  {
    hide Tabled, SettingOf, AllPairs, SortedBy, Oracle, IsSolution, LeafList, Soln, Solves, LastTable, Span, Pow,
      InTable;
    HeightFits(p, 0);
    HeightFits(p, p.k - 1);
    HeightFits(p, p.k);
    ghost var s, h := SettingOf(p, gen), p.k - 1;
    var x, stopped;
    handed := [];
    x, stopped, polls := FirstList(p, gen, cancelled);
    if stopped {
      return Cancelled, [], polls;
    }
    FirstTabled(p, gen, x);
    var hashLen, lenIndices;
    x, hashLen, lenIndices, stopped, polls :=
      Rounds(p.CollisionBytes(), p.HashLength(), p.k, p.FullWidth(), x, cancelled, polls, s);
    if stopped {
      return Cancelled, [], polls;
    }
    TableCount(s, x, h);
    outcome, handed, polls := FinalRound(p, gen, validBlock, cancelled, polls, x, hashLen, lenIndices);
  }

  /** The final round: sort, and hand over what collides. */
  method FinalRound(p: Params, gen: nat -> seq<byte>, validBlock: Bytes -> bool, cancelled: nat -> bool, polls0: nat,
                    x0: seq<Bytes>, hashLen: nat, lenIndices: nat)
    returns (outcome: Outcome, handed: seq<Bytes>, polls: nat)
    requires p.Admissible() && Oracle(p, gen)
    requires Span(p.CollisionBytes(), p.k - 1) <= p.HashLength() && Tabled(SettingOf(p, gen), multiset(x0), p.k - 1)
    requires |x0| > 0 ==>
      hashLen == p.HashLength() - Span(p.CollisionBytes(), p.k - 1) && lenIndices == 4 * Pow2(p.k - 1)
    ensures forall soln :: soln in handed ==> IsSolution(p, gen, soln)
    ensures NoRepeats(handed)
    ensures Refused(handed, validBlock, outcome == Returned(true))
    ensures Polled(cancelled, polls0, polls, outcome == Cancelled)
    ensures outcome == Returned(false) || outcome == NoReturn ==>
      forall soln :: IsSolution(p, gen, soln) ==> soln in handed
    ensures outcome == Returned(false) <==> |x0| <= 1
  {
    hide Tabled, SettingOf, AllPairs, SortedBy, Oracle, IsSolution, LeafList, Soln, Solves, LastTable, Span, Pow;
    HeightFits(p, p.k);
    ghost var s, h := SettingOf(p, gen), p.k - 1;
    ghost var y := RoundLayout(s, h, s.len - Span(s.c, h), 0);
    ghost var rows: seq<Bytes> := [];
    forall soln ensures IsSolution(p, gen, soln) <==> Solves(s, p.IndexBits(), h, soln) {
      SolutionIsTree(p, gen, soln);
    }
    IsLastTable(p, gen, x0, y);
    LastTableFacts(s, p.IndexBits(), h, x0, y);
    if |x0| <= 1 {
      LastPairs(x0, 0, y);
      assert x0[0..] == x0;
      HandedSolutions(s, p.IndexBits(), h, x0, y, [], []);
      return Returned(false), [], polls0;
    }
    var x := Sort(x0, hashLen);
    polls := polls0 + 1;
    if cancelled(polls0) {
      return Cancelled, [], polls;
    }
    IsLastTable(p, gen, x, y);
    LastTableFacts(s, p.IndexBits(), h, x, y);
    MergeWidths(p, p.k);
    var found, stopped;
    found, stopped, polls, handed, rows := HandAll(validBlock, cancelled, polls, x,
      Layout(hashLen, lenIndices, hashLen, 0), p.FullWidth(), p.FinalFullWidth(), p.CollisionBits(), s, h);
    HandedSolutions(s, p.IndexBits(), h, x, y, handed, rows);
    outcome := if found then Returned(true) else if stopped then Cancelled else NoReturn;
  }

  lemma LastTableFacts(s: Setting, bits: nat, h: nat, x: seq<Bytes>, y: Layout)
    requires LastTable(s, bits, h, x, y)
    ensures Shaped(x, y) && y.Sound() && forall i :: 0 <= i < |x| ==> y.cmp <= |x[i]|
  {
  }

  // ---------------------------------------------------------------- a search without an answer

  /** Hash outputs that are all zero. */
  function Blank(p: Params): (gen: nat -> seq<byte>)
    requires p.n > 0
    ensures Oracle(p, gen)
  {
    g => seq(p.HashOutput(), _ => 0)
  }

  lemma BlankInput(p: Params, i: nat)
    requires p.Admissible()
    ensures LeafInput(p, Blank(p), i) == seq(p.n / 8, _ => 0)
  {
    hide Pow, Span;
    var per := p.IndicesPerHashOutput();
    SliceFits(p.n, per, i % per);
    DivNonNegative(i, per);
    SliceOfZeros(p.HashOutput(), i % per * p.n / 8, p.n / 8);
    assert Blank(p)(i / per) == seq(p.HashOutput(), _ => 0);
  }

  lemma SliceOfZeros(len: nat, a: nat, n: nat)
    requires a + n <= len
    ensures var zeros: seq<byte> := seq(len, _ => 0); zeros[a..a + n] == seq(n, _ => 0)
  {
  }

  lemma BlankLeaves(p: Params, i: nat, j: nat)
    requires p.Admissible()
    ensures Leaves(p, Blank(p))(i) == Leaves(p, Blank(p))(j)
  {
    hide Table, Rebased, LeafInput, Blank, Pow, Span;
    BlankInput(p, i);
    BlankInput(p, j);
    assert LeafHash(p, Blank(p), i) == LeafHash(p, Blank(p), j);
  }

  lemma TwoTrees(s: Setting, h: nat)
    requires s.Sound() && Span(s.c, h) <= s.len && Pow2(h) + Pow2(h) <= s.bound && forall i, j :: s.leaf(i) == s.leaf(j)
    ensures InTable(s, Consecutive(0, h), h) && InTable(s, Consecutive(Pow2(h), h), h)
    ensures Consecutive(0, h) != Consecutive(Pow2(h), h)
  {
    hide Valid, Pow, Consecutive, Indices, Span;
    PowPositive(2, h);
    ConsecutiveIsValid(s.leaf, s.len, s.c, 0, h);
    ConsecutiveIsValid(s.leaf, s.len, s.c, Pow2(h), h);
    ConsecutiveIndices(0, h);
    ConsecutiveIndices(Pow2(h), h);
    assert Indices(Consecutive(0, h))[0] != Indices(Consecutive(Pow2(h), h))[0];
  }

  /** With equal hashes the final round has rows to compare, if there are indices enough. */
  lemma BlankIsCrowded(p: Params)
    requires p.Admissible() && p.k <= p.IndexBits()
    ensures Crowded(p, Blank(p))
  {
    hide InTable, Leaves, Blank, Consecutive, Span;
    HeightFits(p, p.k - 1);
    var s, h := SettingOf(p, Blank(p)), p.k - 1;
    forall i, j ensures s.leaf(i) == s.leaf(j) {
      BlankLeaves(p, i, j);
    }
    PowMonotone(2, p.k, p.IndexBits());
    TwoTrees(s, h);
  }

  /** A search that refuses every solution and is never cancelled ends without an answer. */
  method Unanswered(p: Params) returns (outcome: Outcome)
    requires p.Admissible() && p.k <= p.IndexBits()
    ensures outcome == NoReturn
  {
    hide Crowded, IsSolution, Blank;
    BlankIsCrowded(p);
    var handed, polls;
    outcome, handed, polls := BasicSolve(p, Blank(p), _ => false, _ => false);
  }
}
