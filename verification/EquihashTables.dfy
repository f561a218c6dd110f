/**
What the table of the solver holds after each round: the row of every valid tree of
that height over the initial indices, and each of them exactly once.
*/
module EquihashTables {
  import opened Numbers
  import opened Bits
  import opened BitPacking
  import opened CollisionTree
  import opened StepRow
  import opened CollisionRound

  // ---------------------------------------------------------------- pairs of a table

  lemma {:induction false} PairsWithHas(a: Bytes, rest: seq<Bytes>, q: nat, y: Layout)
    requires |a| == y.Width() && Shaped(rest, y) && y.Sound() && q < |rest| && Compatible(a, rest[q], y)
    ensures Merge(a, rest[q], y) in PairsWith(a, rest, y)
  {
    hide Compatible, Merge;
    if q > 0 {
      PairsWithHas(a, rest[1..], q - 1, y);
    }
  }

  lemma {:induction false} AllPairsHas(x: seq<Bytes>, p: nat, q: nat, y: Layout)
    requires Shaped(x, y) && y.Sound() && p < q < |x| && Compatible(x[p], x[q], y)
    ensures Merge(x[p], x[q], y) in AllPairs(x, y)
  {
    hide Compatible, Merge, PairsWith;
    if p == 0 {
      PairsWithHas(x[0], x[1..], q - 1, y);
    } else {
      AllPairsHas(x[1..], p - 1, q - 1, y);
    }
  }

  lemma {:induction false} PairsWithFrom(a: Bytes, rest: seq<Bytes>, row: Bytes, y: Layout) returns (q: nat)
    requires |a| == y.Width() && Shaped(rest, y) && y.Sound() && row in PairsWith(a, rest, y)
    ensures q < |rest| && Compatible(a, rest[q], y) && row == Merge(a, rest[q], y)
  {
    hide Compatible, Merge;
    if Compatible(a, rest[0], y) && row == Merge(a, rest[0], y) {
      q := 0;
    } else {
      q := PairsWithFrom(a, rest[1..], row, y);
      q := q + 1;
    }
  }

  lemma {:induction false} AllPairsFrom(x: seq<Bytes>, row: Bytes, y: Layout) returns (p: nat, q: nat)
    requires Shaped(x, y) && y.Sound() && row in AllPairs(x, y)
    ensures p < q < |x| && Compatible(x[p], x[q], y) && row == Merge(x[p], x[q], y)
  {
    hide Compatible, Merge, PairsWith;
    if row in PairsWith(x[0], x[1..], y) {
      q := PairsWithFrom(x[0], x[1..], row, y);
      p, q := 0, q + 1;
    } else {
      p, q := AllPairsFrom(x[1..], row, y);
      p, q := p + 1, q + 1;
    }
  }

  function Key(a: Bytes, y: Layout): Bytes
    requires |a| == y.Width()
  {
    a[y.hashLen..]
  }

  /** No two rows of the table carry the same index list. */
  ghost predicate DistinctKeys(x: seq<Bytes>, y: Layout)
    requires Shaped(x, y)
  {
    forall i, j :: 0 <= i < j < |x| ==> Key(x[i], y) != Key(x[j], y)
  }

  /** A merged row tells which two index lists it was merged from. */
  lemma MergeKeys(a: Bytes, b: Bytes, a': Bytes, b': Bytes, y: Layout)
    requires |a| == |b| == |a'| == |b'| == y.Width() && y.Sound()
    requires Merge(a, b, y) == Merge(a', b', y)
    ensures || (Key(a, y) == Key(a', y) && Key(b, y) == Key(b', y))
            || (Key(a, y) == Key(b', y) && Key(b, y) == Key(a', y))
  {
    MergeSuffix(a, b, y);
    MergeSuffix(a', b', y);
    var s := Merge(a, b, y)[y.hashLen - y.trim..];
    assert s[..y.lenIndices] == (if IndicesBefore(a, b, y.hashLen, y.lenIndices) then Key(a, y) else Key(b, y));
  }

  lemma MergeSuffix(a: Bytes, b: Bytes, y: Layout)
    requires |a| == |b| == y.Width() && y.Sound()
    ensures |Merge(a, b, y)| == y.hashLen - y.trim + 2 * y.lenIndices
    ensures var s := Merge(a, b, y)[y.hashLen - y.trim..];
            if IndicesBefore(a, b, y.hashLen, y.lenIndices)
            then s[..y.lenIndices] == Key(a, y) && s[y.lenIndices..] == Key(b, y)
            else s[..y.lenIndices] == Key(b, y) && s[y.lenIndices..] == Key(a, y)
  {
    hide XorBytes, LexLess;
    var hl, li := y.hashLen, y.lenIndices;
    assert a[hl..hl + li] == Key(a, y) && b[hl..hl + li] == Key(b, y);
    var m := Merge(a, b, y);
    var xored := XorBytes(a[y.trim..hl], b[y.trim..hl]);
    if IndicesBefore(a, b, hl, li) {
      assert m == xored + (Key(a, y) + Key(b, y));
    } else {
      assert m == xored + (Key(b, y) + Key(a, y));
    }
  }

  lemma DistinctKeysTail(a: Bytes, rest: seq<Bytes>, y: Layout)
    requires |a| == y.Width() && Shaped(rest, y) && rest != [] && DistinctKeys([a] + rest, y)
    ensures DistinctKeys([a] + rest[1..], y)
  {
    hide Key;
    var x, z := [a] + rest, [a] + rest[1..];
    forall i, j | 0 <= i < j < |z| ensures Key(z[i], y) != Key(z[j], y) {
      assert z[j] == x[j + 1] && z[i] == (if i == 0 then x[0] else x[i + 1]);
    }
  }

  lemma {:induction false} PairsWithOnce(a: Bytes, rest: seq<Bytes>, row: Bytes, y: Layout)
    requires |a| == y.Width() && Shaped(rest, y) && y.Sound() && DistinctKeys([a] + rest, y)
    ensures PairsWith(a, rest, y)[row] <= 1
  {
    hide Compatible, Merge, Key;
    if rest != [] {
      DistinctKeysTail(a, rest, y);
      PairsWithOnce(a, rest[1..], row, y);
      if Compatible(a, rest[0], y) && Merge(a, rest[0], y) == row && row in PairsWith(a, rest[1..], y) {
        var q := PairsWithFrom(a, rest[1..], row, y);
        var x := [a] + rest;
        assert a == x[0] && rest[0] == x[1] && rest[1..][q] == x[q + 2];
        MergeKeys(a, rest[0], a, rest[1..][q], y);
      }
    }
  }

  /** With distinct index lists, every merged row comes from one pair only. */
  lemma {:induction false} AllPairsOnce(x: seq<Bytes>, row: Bytes, y: Layout)
    requires Shaped(x, y) && y.Sound() && DistinctKeys(x, y)
    ensures AllPairs(x, y)[row] <= 1
  {
    hide Compatible, Merge, Key, PairsWith;
    if x != [] {
      assert x == [x[0]] + x[1..];
      AllPairsOnce(x[1..], row, y);
      PairsWithOnce(x[0], x[1..], row, y);
      if row in PairsWith(x[0], x[1..], y) && row in AllPairs(x[1..], y) {
        var q := PairsWithFrom(x[0], x[1..], row, y);
        var r, s := AllPairsFrom(x[1..], row, y);
        assert x[1..][q] == x[q + 1] && x[1..][r] == x[r + 1] && x[1..][s] == x[s + 1];
        MergeKeys(x[0], x[1..][q], x[1..][r], x[1..][s], y);
      }
    }
  }

  // ---------------------------------------------------------------- trees in a table

  /** Leaf hashes of `len` bytes in blocks of `c`, for the indices below `bound`. */
  datatype Setting = Setting(leaf: nat -> seq<byte>, len: nat, c: nat, bound: nat) {
    ghost predicate Sound()
    {
      Uniform(leaf, len) && bound <= WORD
    }
  }

  ghost predicate Below(ids: seq<nat>, bound: nat)
  {
    forall i :: 0 <= i < |ids| ==> ids[i] < bound
  }

  /** The trees whose rows belong in the table at height h. */
  ghost predicate InTable(s: Setting, t: Tree, h: nat): (r: bool)
    requires s.Sound() && Span(s.c, h) <= s.len
    ensures r ==> Perfect(t, h)
  {
    Perfect(t, h) && Below(Indices(t), s.bound) && Valid(s.leaf, s.len, s.c, t, h)
  }

  ghost function RowOf(s: Setting, t: Tree, h: nat): Bytes
    requires s.Sound() && Span(s.c, h) <= s.len && Perfect(t, h)
  {
    Row(s.leaf, s.len, s.c, t, h)
  }

  ghost predicate Represented(s: Setting, row: Bytes, h: nat)
    requires s.Sound() && Span(s.c, h) <= s.len
  {
    exists t :: InTable(s, t, h) && row == RowOf(s, t, h)
  }

  /** The table holds exactly the rows of the valid trees of height h, each once. */
  ghost predicate Tabled(s: Setting, m: multiset<Bytes>, h: nat)
    requires s.Sound() && Span(s.c, h) <= s.len
  {
    && (forall row :: row in m ==> m[row] == 1 && Represented(s, row, h))
    && (forall t :: InTable(s, t, h) ==> RowOf(s, t, h) in m)
  }

  function RoundLayout(s: Setting, h: nat, cmp: nat, trim: nat): Layout
    requires Span(s.c, h) <= s.len
  {
    Layout(s.len - Span(s.c, h), 4 * Pow2(h), cmp, trim)
  }

  lemma RowFacts(s: Setting, t: Tree, h: nat)
    requires s.Sound() && Span(s.c, h) <= s.len && InTable(s, t, h)
    ensures Words(Indices(t)) && |Indices(t)| == Pow2(h)
    ensures |RowOf(s, t, h)| == s.len - Span(s.c, h) + 4 * Pow2(h)
    ensures RowOf(s, t, h)[..s.len - Span(s.c, h)] == RowHash(s.leaf, s.len, s.c, t, h)
    ensures RowOf(s, t, h)[s.len - Span(s.c, h)..] == Table(INDEX_BYTES, Indices(t))
  {
    hide RowHash, Table, Pow, Valid;
    IndexCount(t, h);
    RowLayout(s.leaf, s.len, s.c, t, h);
  }

  lemma TreeOfRow(s: Setting, x: seq<Bytes>, h: nat, i: nat) returns (t: Tree)
    requires s.Sound() && Span(s.c, h) <= s.len && Tabled(s, multiset(x), h) && i < |x|
    ensures InTable(s, t, h) && x[i] == RowOf(s, t, h)
    ensures |x[i]| == s.len - Span(s.c, h) + 4 * Pow2(h)
    ensures x[i][s.len - Span(s.c, h)..] == Table(INDEX_BYTES, Indices(t))
  {
    hide RowHash, Table, Pow, InTable, RowOf;
    assert x[i] in multiset(x);
    assert Represented(s, x[i], h);
    t :| InTable(s, t, h) && x[i] == RowOf(s, t, h);
    RowFacts(s, t, h);
  }

  lemma TableShaped(s: Setting, x: seq<Bytes>, h: nat, y: Layout)
    requires s.Sound() && Span(s.c, h) <= s.len && Tabled(s, multiset(x), h)
    requires y.hashLen == s.len - Span(s.c, h) && y.lenIndices == 4 * Pow2(h)
    ensures Shaped(x, y) && DistinctKeys(x, y)
  {
    hide Table, Pow, InTable, RowOf, Span;
    forall i | 0 <= i < |x| ensures |x[i]| == y.Width() {
      var t := TreeOfRow(s, x, h, i);
    }
    forall i, j | 0 <= i < j < |x| ensures Key(x[i], y) != Key(x[j], y) {
      var t := TreeOfRow(s, x, h, i);
      var u := TreeOfRow(s, x, h, j);
      SameKeySameTree(s, t, u, h);
      TwiceInMultiset(x, i, j);
      assert x[i] in multiset(x);
    }
  }

  lemma SameKeySameTree(s: Setting, t: Tree, u: Tree, h: nat)
    requires s.Sound() && Span(s.c, h) <= s.len && InTable(s, t, h) && InTable(s, u, h)
    ensures Table(INDEX_BYTES, Indices(t)) == Table(INDEX_BYTES, Indices(u)) ==> t == u
  {
    hide Table, Valid, LexLess, Pow;
    if Table(INDEX_BYTES, Indices(t)) == Table(INDEX_BYTES, Indices(u)) {
      IndexCount(t, h);
      IndexCount(u, h);
      TableOrder(Indices(t), Indices(u));
      TreeDetermined(t, u, h);
    }
  }

  lemma TwiceInMultiset<T>(x: seq<T>, i: nat, j: nat)
    requires i < j < |x|
    ensures x[i] == x[j] ==> multiset(x)[x[i]] >= 2
  {
    assert x == x[..j] + [x[j]] + x[j + 1..];
    assert x[i] in x[..j];
  }

  // ---------------------------------------------------------------- one round

  /** Two rows of a table are compatible exactly when the tree over them, in order, belongs one level up. */
  lemma CompatibleIsNode(s: Setting, l: Tree, r: Tree, h: nat, y: Layout)
    requires s.Sound() && Span(s.c, h) <= s.len && Span(s.c, h + 1) <= s.len
    requires InTable(s, l, h) && InTable(s, r, h) && y == RoundLayout(s, h, s.c, s.c)
    ensures y.Sound() && |RowOf(s, l, h)| == |RowOf(s, r, h)| == y.Width()
    ensures Compatible(RowOf(s, l, h), RowOf(s, r, h), y) <==> InTable(s, Ordered(l, r), h + 1)
    ensures Compatible(RowOf(s, l, h), RowOf(s, r, h), y) ==>
              Merge(RowOf(s, l, h), RowOf(s, r, h), y) == RowOf(s, Ordered(l, r), h + 1)
  {
    hide Table, Row, Pow, LexLess, IndexList, Disjoint, Merged, RowHash, InTable, Valid, Compatible, Ordered;
    hide Indices, Perfect, Span;
    LayoutSound(s, h, y);
    RowFacts(s, l, h);
    RowFacts(s, r, h);
    CollidingBlocks(s, l, r, h, y);
    MergedIsRow(s.leaf, s.len, s.c, l, r, h);
    OrderedInTable(s, l, r, h);
  }

  lemma CollidingBlocks(s: Setting, l: Tree, r: Tree, h: nat, y: Layout)
    requires s.Sound() && Span(s.c, h) <= s.len && Span(s.c, h + 1) <= s.len
    requires InTable(s, l, h) && InTable(s, r, h)
    requires y.hashLen == s.len - Span(s.c, h) && y.lenIndices == 4 * Pow2(h) && y.Sound()
    ensures |RowOf(s, l, h)| == |RowOf(s, r, h)| == y.Width()
    ensures Compatible(RowOf(s, l, h), RowOf(s, r, h), y) <==>
            && RowHash(s.leaf, s.len, s.c, l, h)[..y.cmp] == RowHash(s.leaf, s.len, s.c, r, h)[..y.cmp]
            && Disjoint(Indices(l), Indices(r))
  {
    hide Table, Row, Pow, LexLess, IndexList, Disjoint, RowHash;
    RowFacts(s, l, h);
    RowFacts(s, r, h);
    var a, b, hl := RowOf(s, l, h), RowOf(s, r, h), y.hashLen;
    assert a[hl..hl + y.lenIndices] == a[hl..] && b[hl..hl + y.lenIndices] == b[hl..];
    assert a[..y.cmp] == a[..hl][..y.cmp] && b[..y.cmp] == b[..hl][..y.cmp];
    IndexListOfTable(Indices(l));
    IndexListOfTable(Indices(r));
  }

  lemma OrderedInTable(s: Setting, l: Tree, r: Tree, h: nat)
    requires s.Sound() && Span(s.c, h) <= s.len && Span(s.c, h + 1) <= s.len
    requires InTable(s, l, h) && InTable(s, r, h)
    ensures InTable(s, Ordered(l, r), h + 1) <==>
            && RowHash(s.leaf, s.len, s.c, l, h)[..s.c] == RowHash(s.leaf, s.len, s.c, r, h)[..s.c]
            && Disjoint(Indices(l), Indices(r))
  {
    hide RowHash, Pow, LexLess;
    var x, y := Indices(l), Indices(r);
    IndexCount(l, h);
    IndexCount(r, h);
    LexTotal(x, y);
    assert Disjoint(x, y) <==> Disjoint(y, x);
    if Disjoint(x, y) {
      DisjointDiffer(x, y);
    }
    assert forall i :: 0 <= i < |x + y| ==> (x + y)[i] < s.bound;
    assert forall i :: 0 <= i < |y + x| ==> (y + x)[i] < s.bound;
  }

  lemma NodeParts(s: Setting, t: Tree, h: nat)
    requires s.Sound() && Span(s.c, h) <= s.len && Span(s.c, h + 1) <= s.len && InTable(s, t, h + 1)
    ensures t.Node? && InTable(s, t.left, h) && InTable(s, t.right, h) && t.left != t.right
    ensures Ordered(t.left, t.right) == t && Ordered(t.right, t.left) == t
  {
    hide RowHash, Pow, LexLess;
    var x, y := Indices(t.left), Indices(t.right);
    IndexCount(t.left, h);
    IndexCount(t.right, h);
    LexTotal(x, y);
    DisjointDiffer(x, y);
    assert forall i :: 0 <= i < |x| ==> Indices(t)[i] == x[i];
    assert forall i :: 0 <= i < |y| ==> Indices(t)[i + |x|] == y[i];
    BelowParts(x, y, s.bound);
  }

  lemma BelowParts(x: seq<nat>, y: seq<nat>, bound: nat)
    requires Below(x + y, bound)
    ensures Below(x, bound) && Below(y, bound)
  {
    forall i | 0 <= i < |x| ensures x[i] < bound {
      assert x[i] == (x + y)[i];
    }
    forall i | 0 <= i < |y| ensures y[i] < bound {
      assert y[i] == (x + y)[|x| + i];
    }
  }

  lemma RowPosition(s: Setting, x: seq<Bytes>, t: Tree, h: nat) returns (p: nat)
    requires s.Sound() && Span(s.c, h) <= s.len && Tabled(s, multiset(x), h) && InTable(s, t, h)
    ensures p < |x| && x[p] == RowOf(s, t, h)
  {
    assert RowOf(s, t, h) in multiset(x);
    p :| 0 <= p < |x| && x[p] == RowOf(s, t, h);
  }

  lemma DifferentRows(s: Setting, t: Tree, u: Tree, h: nat)
    requires s.Sound() && Span(s.c, h) <= s.len && InTable(s, t, h) && InTable(s, u, h) && t != u
    ensures RowOf(s, t, h) != RowOf(s, u, h)
  {
    hide Table, RowHash, Pow, Valid, RowOf;
    RowFacts(s, t, h);
    RowFacts(s, u, h);
    SameKeySameTree(s, t, u, h);
  }

  /** The table of height h has more than one row exactly when there are two valid trees of that height. */
  lemma TableCount(s: Setting, x: seq<Bytes>, h: nat)
    requires s.Sound() && Span(s.c, h) <= s.len && Tabled(s, multiset(x), h)
    ensures |x| > 1 <==> exists t, u :: InTable(s, t, h) && InTable(s, u, h) && t != u
  {
    hide InTable, RowOf, Span, Pow;
    if |x| > 1 {
      var t := TreeOfRow(s, x, h, 0);
      var u := TreeOfRow(s, x, h, 1);
      TwiceInMultiset(x, 0, 1);
      assert x[0] in multiset(x);
      assert t != u;
    }
    if t, u :| InTable(s, t, h) && InTable(s, u, h) && t != u {
      DifferentRows(s, t, u, h);
      var i := RowPosition(s, x, t, h);
      var j := RowPosition(s, x, u, h);
    }
  }

  /** Completeness of a round: every valid tree one level up is merged. */
  lemma RoundComplete(s: Setting, x: seq<Bytes>, h: nat, y: Layout, t: Tree)
    requires s.Sound() && Span(s.c, h) <= s.len && Span(s.c, h + 1) <= s.len
    requires Tabled(s, multiset(x), h) && y == RoundLayout(s, h, s.c, s.c) && InTable(s, t, h + 1)
    ensures Shaped(x, y) && y.Sound() && RowOf(s, t, h + 1) in AllPairs(x, y)
  {
    hide AllPairs, Compatible, Merge, InTable, RowOf, Pow, Tabled;
    NodeParts(s, t, h);
    TableShaped(s, x, h, y);
    var p := RowPosition(s, x, t.left, h);
    var q := RowPosition(s, x, t.right, h);
    DifferentRows(s, t.left, t.right, h);
    CompatibleIsNode(s, t.left, t.right, h, y);
    CompatibleIsNode(s, t.right, t.left, h, y);
    if p < q {
      AllPairsHas(x, p, q, y);
    } else {
      AllPairsHas(x, q, p, y);
    }
  }

  /** Soundness of a round: every merged row is the row of a valid tree, and is merged once. */
  lemma RoundSound(s: Setting, x: seq<Bytes>, h: nat, y: Layout, row: Bytes)
    requires s.Sound() && Span(s.c, h) <= s.len && Span(s.c, h + 1) <= s.len
    requires Tabled(s, multiset(x), h) && y == RoundLayout(s, h, s.c, s.c)
    ensures Shaped(x, y) && y.Sound()
    ensures row in AllPairs(x, y) ==> AllPairs(x, y)[row] == 1 && Represented(s, row, h + 1)
  {
    hide AllPairs, Compatible, Merge, InTable, RowOf, Pow, Tabled;
    LayoutSound(s, h, y);
    TableShaped(s, x, h, y);
    if row in AllPairs(x, y) {
      AllPairsOnce(x, row, y);
      var p, q := AllPairsFrom(x, row, y);
      var t := TreeOfRow(s, x, h, p);
      var u := TreeOfRow(s, x, h, q);
      CompatibleIsNode(s, t, u, h, y);
      assert InTable(s, Ordered(t, u), h + 1) && row == RowOf(s, Ordered(t, u), h + 1);
    }
  }

  lemma LayoutSound(s: Setting, h: nat, y: Layout)
    requires Span(s.c, h) <= s.len && Span(s.c, h + 1) <= s.len && y == RoundLayout(s, h, s.c, s.c)
    ensures y.Sound()
  {
  }

  /** A round takes the table of height h to the table of height h + 1. */
  lemma RoundKeeps(s: Setting, x: seq<Bytes>, h: nat, y: Layout)
    requires s.Sound() && Span(s.c, h) <= s.len && Span(s.c, h + 1) <= s.len
    requires Tabled(s, multiset(x), h) && y == RoundLayout(s, h, s.c, s.c)
    ensures Shaped(x, y) && y.Sound() && Tabled(s, AllPairs(x, y), h + 1)
  {
    hide AllPairs, InTable, RowOf, Represented;
    var up := h + 1;
    LayoutSound(s, h, y);
    TableShaped(s, x, h, y);
    forall row | row in AllPairs(x, y)
      ensures AllPairs(x, y)[row] == 1 && Represented(s, row, up)
    {
      RoundSound(s, x, h, y, row);
    }
    forall t | InTable(s, t, up)
      ensures RowOf(s, t, up) in AllPairs(x, y)
    {
      RoundComplete(s, x, h, y, t);
    }
  }

  /** An empty table stays empty: without trees of height h there are none above. */
  lemma {:induction false} EmptyStays(s: Setting, h: nat, top: nat)
    requires s.Sound() && h <= top && Span(s.c, h) <= s.len && Span(s.c, top) <= s.len
    requires Tabled(s, multiset{}, h)
    ensures Tabled(s, multiset{}, top)
    decreases top - h
  {
    if h < top {
      SpanMonotone(s.c, h + 1, top);
      NothingAbove(s, h);
      EmptyStays(s, h + 1, top);
    }
  }

  lemma NothingAbove(s: Setting, h: nat)
    requires s.Sound() && Span(s.c, h) <= s.len && Span(s.c, h + 1) <= s.len && Tabled(s, multiset{}, h)
    ensures Tabled(s, multiset{}, h + 1)
  {
    hide Tabled;
    var none: seq<Bytes> := [];
    var y := RoundLayout(s, h, s.c, s.c);
    RoundKeeps(s, none, h, y);
    assert AllPairs(none, y) == multiset{} == multiset(none);
  }

  // ---------------------------------------------------------------- the final round

  /** The last merge of a solution: both remaining blocks collide at once. */
  lemma FinalNode(leaf: nat -> seq<byte>, len: nat, c: nat, l: Tree, r: Tree, h: nat)
    requires Uniform(leaf, len) && Perfect(l, h) && Perfect(r, h) && Span(c, h + 1) <= len
    ensures Valid(leaf, len, c, Node(l, r), h + 1) && Zero(Sum(leaf, len, Node(l, r))) <==>
            && Valid(leaf, len, c, l, h) && Valid(leaf, len, c, r, h)
            && RowHash(leaf, len, c, l, h) == RowHash(leaf, len, c, r, h)
            && LexLess(Indices(l), Indices(r)) && Disjoint(Indices(l), Indices(r))
  {
    hide Sum, RowHash, LexLess, Disjoint, Pow, Indices, Zero, XorBytes;
    var t := Node(l, r);
    var a, b := RowHash(leaf, len, c, l, h), RowHash(leaf, len, c, r, h);
    ValidStep(leaf, len, c, l, r, h);
    RowHashIsSum(leaf, len, c, t, h + 1);
    NodeRowHash(leaf, len, c, l, r, h);
    ZeroXor(a[c..], b[c..]);
    assert a == a[..c] + a[c..] && b == b[..c] + b[c..];
    if Valid(leaf, len, c, t, h + 1) {
      ValidMeans(leaf, len, c, t, h + 1);
      CollidesZero(leaf, len, c, t, h + 1);
      ZeroSplit(Sum(leaf, len, t), Span(c, h + 1));
    }
  }

  lemma ValidStep(leaf: nat -> seq<byte>, len: nat, c: nat, l: Tree, r: Tree, h: nat)
    requires Uniform(leaf, len) && Perfect(l, h) && Perfect(r, h) && Span(c, h + 1) <= len
    ensures Valid(leaf, len, c, Node(l, r), h + 1) <==>
            && Valid(leaf, len, c, l, h) && Valid(leaf, len, c, r, h)
            && RowHash(leaf, len, c, l, h)[..c] == RowHash(leaf, len, c, r, h)[..c]
            && LexLess(Indices(l), Indices(r)) && Disjoint(Indices(l), Indices(r))
  {
  }

  lemma ZeroXor(a: seq<byte>, b: seq<byte>)
    requires |a| == |b|
    ensures Zero(XorBytes(a, b)) <==> a == b
  {
    XorBytesCancels(a, b);
  }

  /** A tree over two rows of the last table that xors to zero. */
  ghost predicate FinalTree(s: Setting, t: Tree, h: nat)
    requires s.Sound() && Span(s.c, h + 1) <= s.len
  {
    InTable(s, t, h + 1) && Zero(Sum(s.leaf, s.len, t))
  }

  lemma FinalCompatible(s: Setting, l: Tree, r: Tree, h: nat, y: Layout)
    requires s.Sound() && Span(s.c, h) <= s.len && Span(s.c, h + 1) <= s.len
    requires InTable(s, l, h) && InTable(s, r, h) && y == RoundLayout(s, h, s.len - Span(s.c, h), 0)
    ensures y.Sound() && |RowOf(s, l, h)| == |RowOf(s, r, h)| == y.Width()
    ensures Compatible(RowOf(s, l, h), RowOf(s, r, h), y) <==> FinalTree(s, Ordered(l, r), h)
    ensures Merge(RowOf(s, l, h), RowOf(s, r, h), y)[y.hashLen..] == Table(INDEX_BYTES, Indices(Ordered(l, r)))
  {
    hide Table, Row, Pow, LexLess, IndexList, Disjoint, Merged, RowHash, Valid, Compatible, Perfect, Sum, Zero;
    RowFacts(s, l, h);
    RowFacts(s, r, h);
    CollidingBlocks(s, l, r, h, y);
    var a, b := RowHash(s.leaf, s.len, s.c, l, h), RowHash(s.leaf, s.len, s.c, r, h);
    assert a[..y.cmp] == a && b[..y.cmp] == b;
    FinalNode(s.leaf, s.len, s.c, l, r, h);
    FinalNode(s.leaf, s.len, s.c, r, l, h);
    OrderedChoice(s, l, r, h);
    FinalIndices(s, l, r, h, y);
  }

  lemma OrderedChoice(s: Setting, l: Tree, r: Tree, h: nat)
    requires s.Sound() && Span(s.c, h) <= s.len && InTable(s, l, h) && InTable(s, r, h)
    ensures Perfect(Ordered(l, r), h + 1) && Below(Indices(Ordered(l, r)), s.bound)
    ensures Disjoint(Indices(l), Indices(r)) <==> Disjoint(Indices(r), Indices(l))
    ensures Disjoint(Indices(l), Indices(r)) ==> LexLess(Indices(l), Indices(r)) || LexLess(Indices(r), Indices(l))
    ensures !(LexLess(Indices(l), Indices(r)) && LexLess(Indices(r), Indices(l)))
  {
    hide LexLess, Valid, Pow;
    var x, y := Indices(l), Indices(r);
    IndexCount(l, h);
    IndexCount(r, h);
    LexTotal(x, y);
    if Disjoint(x, y) {
      DisjointDiffer(x, y);
    }
    assert forall i :: 0 <= i < |x + y| ==> (x + y)[i] < s.bound;
    assert forall i :: 0 <= i < |y + x| ==> (y + x)[i] < s.bound;
  }

  lemma FinalIndices(s: Setting, l: Tree, r: Tree, h: nat, y: Layout)
    requires s.Sound() && Span(s.c, h) <= s.len && InTable(s, l, h) && InTable(s, r, h)
    requires y == RoundLayout(s, h, s.len - Span(s.c, h), 0) && y.Sound()
    ensures |RowOf(s, l, h)| == |RowOf(s, r, h)| == y.Width()
    ensures Merge(RowOf(s, l, h), RowOf(s, r, h), y)[y.hashLen..] == Table(INDEX_BYTES, Indices(Ordered(l, r)))
  {
    hide Table, Row, Pow, LexLess, RowHash, Valid, Perfect, XorBytes;
    RowFacts(s, l, h);
    RowFacts(s, r, h);
    var a, b := RowHash(s.leaf, s.len, s.c, l, h), RowHash(s.leaf, s.len, s.c, r, h);
    var x, z := Table(INDEX_BYTES, Indices(l)), Table(INDEX_BYTES, Indices(r));
    assert RowOf(s, l, h) == a + x && RowOf(s, r, h) == b + z;
    MergedParts(a, x, b, z, 0);
    TableOrder(Indices(l), Indices(r));
    TableConcat(INDEX_BYTES, Indices(l), Indices(r));
    TableConcat(INDEX_BYTES, Indices(r), Indices(l));
  }
}
