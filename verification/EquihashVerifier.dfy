/**
IsValidSolution: level by level, adjacent rows are checked and merged until one
row is left. It accepts exactly the packed index lists that are solutions.
*/
module EquihashVerifier {
  import opened Numbers
  import opened Bits
  import opened BitPacking
  import opened CollisionTree
  import opened StepRow
  import opened EquihashParams

  /** The subtrees of height h, from left to right. */
  ghost function Level(t: Tree, top: nat, h: nat): (ts: seq<Tree>)
    requires Perfect(t, top) && h <= top
    ensures |ts| == Pow2(top - h)
    ensures forall j :: 0 <= j < |ts| ==> Perfect(ts[j], h)
    decreases top
  {
    if h == top then [t] else Level(t.left, top - 1, h) + Level(t.right, top - 1, h)
  }

  lemma {:induction false} LevelChildren(t: Tree, top: nat, h: nat, j: nat)
    requires Perfect(t, top) && h < top && j < |Level(t, top, h + 1)|
    ensures |Level(t, top, h)| == 2 * |Level(t, top, h + 1)|
    ensures Level(t, top, h + 1)[j].Node?
    ensures Level(t, top, h)[2 * j] == Level(t, top, h + 1)[j].left
    ensures Level(t, top, h)[2 * j + 1] == Level(t, top, h + 1)[j].right
    decreases top
  {
    if h + 1 < top {
      var m := |Level(t.left, top - 1, h + 1)|;
      if j < m {
        LevelChildren(t.left, top - 1, h, j);
        LevelChildren(t.right, top - 1, h, 0);
      } else {
        LevelChildren(t.left, top - 1, h, 0);
        LevelChildren(t.right, top - 1, h, j - m);
      }
    }
  }

  lemma {:induction false} LevelValid(leaf: nat -> seq<byte>, len: nat, c: nat, t: Tree, top: nat, h: nat, j: nat)
    requires Uniform(leaf, len) && Perfect(t, top) && Span(c, top) <= len && h <= top && j < |Level(t, top, h)|
    ensures Span(c, h) <= len
    ensures Valid(leaf, len, c, t, top) ==> Valid(leaf, len, c, Level(t, top, h)[j], h)
    decreases top
  {
    SpanMonotone(c, h, top);
    if h < top {
      var m := |Level(t.left, top - 1, h)|;
      if j < m {
        LevelValid(leaf, len, c, t.left, top - 1, h, j);
      } else {
        LevelValid(leaf, len, c, t.right, top - 1, h, j - m);
      }
    }
  }

  lemma {:induction false} LevelLeaves(t: Tree, top: nat, j: nat)
    requires Perfect(t, top) && j < |Indices(t)|
    ensures |Level(t, top, 0)| == |Indices(t)| && Level(t, top, 0)[j] == Leaf(Indices(t)[j])
    decreases top
  {
    if top > 0 {
      IndexCount(t.left, top - 1);
      IndexCount(t.right, top - 1);
      var m := |Indices(t.left)|;
      if j < m {
        LevelLeaves(t.left, top - 1, j);
      } else {
        LevelLeaves(t.right, top - 1, j - m);
      }
    }
  }

  lemma {:induction false} LevelWords(t: Tree, top: nat, h: nat, j: nat)
    requires Perfect(t, top) && h <= top && j < |Level(t, top, h)| && Words(Indices(t))
    ensures Words(Indices(Level(t, top, h)[j]))
    decreases top
  {
    if h < top {
      var a, b := Indices(t.left), Indices(t.right);
      assert forall i :: 0 <= i < |a| ==> Indices(t)[i] == a[i];
      assert forall i :: 0 <= i < |b| ==> Indices(t)[|a| + i] == b[i];
      var m := |Level(t.left, top - 1, h)|;
      if j < m {
        LevelWords(t.left, top - 1, h, j);
      } else {
        LevelWords(t.right, top - 1, h, j - m);
      }
    }
  }

  /** `x` holds the rows of the trees `ts`. */
  ghost predicate RowsOf(x: seq<seq<byte>>, leaf: nat -> seq<byte>, len: nat, c: nat, ts: seq<Tree>, h: nat)
    requires Uniform(leaf, len) && Span(c, h) <= len
  {
    && |x| == |ts|
    && forall j :: 0 <= j < |ts| ==> Perfect(ts[j], h) && Words(Indices(ts[j])) && x[j] == Row(leaf, len, c, ts[j], h)
  }

  ghost predicate AllValid(leaf: nat -> seq<byte>, len: nat, c: nat, ts: seq<Tree>, h: nat)
    requires Uniform(leaf, len) && Span(c, h) <= len
    requires forall j :: 0 <= j < |ts| ==> Perfect(ts[j], h)
  {
    forall j :: 0 <= j < |ts| ==> Valid(leaf, len, c, ts[j], h)
  }

  /** The three checks on a pair of rows are the validity of the node above them. */
  lemma PairCheck(leaf: nat -> seq<byte>, len: nat, c: nat, l: Tree, r: Tree, h: nat, a: seq<byte>, b: seq<byte>)
    requires Uniform(leaf, len) && Perfect(l, h) && Perfect(r, h) && Span(c, h + 1) <= len
    requires Words(Indices(l)) && Words(Indices(r))
    requires Valid(leaf, len, c, l, h) && Valid(leaf, len, c, r, h)
    requires a == Row(leaf, len, c, l, h) && b == Row(leaf, len, c, r, h)
    ensures |a| == |b| == len - Span(c, h) + 4 * Pow2(h) && c <= len - Span(c, h)
    ensures Valid(leaf, len, c, Node(l, r), h + 1) <==>
            && a[..c] == b[..c]
            && !IndicesBefore(b, a, len - Span(c, h), 4 * Pow2(h))
            && Disjoint(IndexList(a[len - Span(c, h)..len - Span(c, h) + 4 * Pow2(h)]),
                        IndexList(b[len - Span(c, h)..len - Span(c, h) + 4 * Pow2(h)]))
  {
    hide RowHash, Table, LexLess, Pow, IndexList, Row, Disjoint, Span, Words;
    SpanStep(c, h);
    var hl, li := len - Span(c, h), 4 * Pow2(h);
    RowLayout(leaf, len, c, l, h);
    RowLayout(leaf, len, c, r, h);
    IndexListOfTable(Indices(l));
    IndexListOfTable(Indices(r));
    IndexCount(l, h);
    IndexCount(r, h);
    TableOrder(Indices(r), Indices(l));
    LexTotal(Indices(l), Indices(r));
    NotDisjointSelf(Indices(l));
    assert a[hl..hl + li] == a[hl..] && b[hl..hl + li] == b[hl..];
    assert a[..c] == a[..hl][..c] && b[..c] == b[..hl][..c];
  }

  lemma NotDisjointSelf(x: seq<nat>)
    requires |x| > 0
    ensures !Disjoint(x, x)
  {
    var first := x[0];
    assert first in x;
  }

  /** One level of IsValidSolution: check and merge adjacent rows, or find an invalid node. */
  method ReduceLevel(x: seq<seq<byte>>, hashLen: nat, lenIndices: nat, c: nat, width: nat,
                     ghost leaf: nat -> seq<byte>, ghost len: nat, ghost t: Tree, ghost top: nat, ghost h: nat)
    returns (ok: bool, xc: seq<seq<byte>>)
    requires Uniform(leaf, len) && Perfect(t, top) && h < top && Span(c, top) <= len && Words(Indices(t))
    requires Span(c, h + 1) <= len && hashLen == len - Span(c, h) && lenIndices == 4 * Pow2(h)
    requires hashLen + lenIndices <= width && c <= hashLen && hashLen - c + 2 * lenIndices <= width
    requires RowsOf(x, leaf, len, c, Level(t, top, h), h)
    requires AllValid(leaf, len, c, Level(t, top, h), h)
    ensures ok ==> RowsOf(xc, leaf, len, c, Level(t, top, h + 1), h + 1)
    ensures ok ==> AllValid(leaf, len, c, Level(t, top, h + 1), h + 1)
    ensures !ok ==> !Valid(leaf, len, c, t, top)
  {
    hide RowHash, Row, Table, LexLess, Pow, IndexList, Disjoint, Level, Valid, Indices, Words, Merged, Uniform;
    ghost var kids, parents := Level(t, top, h), Level(t, top, h + 1);
    PowPositive(2, top - (h + 1));
    LevelChildren(t, top, h, 0);
    xc := [];
    var i := 0;
    while i < |x|
      invariant 0 <= i <= |x| && i == 2 * |xc|
      invariant RowsOf(xc, leaf, len, c, parents[..|xc|], h + 1)
      invariant AllValid(leaf, len, c, parents[..|xc|], h + 1)
      decreases |x| - i
    {
      ghost var j := |xc|;
      LevelChildren(t, top, h, j);
      LevelWords(t, top, h + 1, j);
      LevelValid(leaf, len, c, t, top, h + 1, j);
      PairCheck(leaf, len, c, kids[2 * j], kids[2 * j + 1], h, x[i], x[i + 1]);
      var collision := HasCollision(x[i], x[i + 1], c);
      if !collision {
        return false, [];
      }
      if IndicesBefore(x[i + 1], x[i], hashLen, lenIndices) {
        return false, [];
      }
      var distinct := DistinctIndices(x[i], x[i + 1], hashLen, lenIndices);
      if !distinct {
        return false, [];
      }
      var row := MergeRows(x[i], x[i + 1], hashLen, lenIndices, c, width, width);
      MergedIsRow(leaf, len, c, kids[2 * j], kids[2 * j + 1], h);
      ValidOrder(leaf, len, c, parents[j], h + 1);
      assert parents[..j + 1] == parents[..j] + [parents[j]];
      xc := xc + [row];
      i := i + 2;
    }
    ok := true;
    assert parents[..|xc|] == parents;
  }

  lemma ValidOrder(leaf: nat -> seq<byte>, len: nat, c: nat, t: Tree, h: nat)
    requires Uniform(leaf, len) && Perfect(t, h) && h > 0 && Span(c, h) <= len && Valid(leaf, len, c, t, h)
    ensures t.Node? && Ordered(t.left, t.right) == t
  {
  }

  /** The first list of rows: one leaf per unpacked index. */
  method LeafRows(p: Params, gen: nat -> seq<byte>, ids: seq<nat>) returns (x: seq<seq<byte>>)
    requires p.Admissible() && Oracle(p, gen) && Words(ids)
    ensures |x| == |ids| && Span(p.CollisionBytes(), 0) <= p.HashLength()
    ensures forall j :: 0 <= j < |ids| ==>
              x[j] == Row(Leaves(p, gen), p.HashLength(), p.CollisionBytes(), Leaf(ids[j]), 0)
  {
    hide Row, Table, Rebased, BytesOf, Leaves, LeafHash, Pow;
    LeafFits(p);
    x := [];
    for j := 0 to |ids|
      invariant |x| == j
      invariant forall m :: 0 <= m < j ==>
                  x[m] == Row(Leaves(p, gen), p.HashLength(), p.CollisionBytes(), Leaf(ids[m]), 0)
    {
      LeafRowIsRow(p, gen, ids[j]);
      var row := LeafRow(p, LeafInput(p, gen, ids[j]), ids[j], p.FinalFullWidth());
      x := x + [row];
    }
  }

  method IsZero(row: seq<byte>, len: nat) returns (r: bool)
    requires len <= |row|
    ensures r <==> Zero(row[..len])
  {
    for i := 0 to len
      invariant Zero(row[..i])
    {
      if row[i] != 0 {
        assert row[..len][i] != 0;
        return false;
      }
    }
    return true;
  }

  lemma FirstLevel(leaf: nat -> seq<byte>, len: nat, c: nat, t: Tree, top: nat, x: seq<seq<byte>>)
    requires Uniform(leaf, len) && Perfect(t, top) && Words(Indices(t)) && |x| == |Indices(t)|
    requires forall j :: 0 <= j < |x| ==> x[j] == Row(leaf, len, c, Leaf(Indices(t)[j]), 0)
    ensures RowsOf(x, leaf, len, c, Level(t, top, 0), 0) && AllValid(leaf, len, c, Level(t, top, 0), 0)
  {
    hide Row, Pow;
    forall j | 0 <= j < |x|
      ensures |Level(t, top, 0)| == |x| && Level(t, top, 0)[j] == Leaf(Indices(t)[j])
    {
      LevelLeaves(t, top, j);
    }
    LevelLeaves(t, top, 0);
  }

  /** With one row left, what remains to check is that its hash is zero. */
  lemma LastLevel(leaf: nat -> seq<byte>, len: nat, c: nat, t: Tree, top: nat, x: seq<seq<byte>>)
    requires Uniform(leaf, len) && Perfect(t, top) && Span(c, top) <= len
    requires RowsOf(x, leaf, len, c, Level(t, top, top), top) && AllValid(leaf, len, c, Level(t, top, top), top)
    ensures |x| == 1 && len - Span(c, top) <= |x[0]|
    ensures Distinct(Indices(t)) && Collides(leaf, len, c, t, top)
    ensures Zero(x[0][..len - Span(c, top)]) <==> Zero(Sum(leaf, len, t))
  {
    hide Sum, RowHash, Row, Pow, Collides, Valid, Distinct, RowsOf, AllValid, Level;
    TopRow(leaf, len, c, t, top, x);
    ValidMeans(leaf, len, c, t, top);
    RowHashIsSum(leaf, len, c, t, top);
    RowLayout(leaf, len, c, t, top);
    ZeroSplit(Sum(leaf, len, t), Span(c, top));
    CollidesZero(leaf, len, c, t, top);
  }

  lemma TopRow(leaf: nat -> seq<byte>, len: nat, c: nat, t: Tree, top: nat, x: seq<seq<byte>>)
    requires Uniform(leaf, len) && Perfect(t, top) && Span(c, top) <= len
    requires RowsOf(x, leaf, len, c, Level(t, top, top), top) && AllValid(leaf, len, c, Level(t, top, top), top)
    ensures |x| == 1 && x[0] == Row(leaf, len, c, t, top) && Valid(leaf, len, c, t, top)
  {
    hide Row, Valid, Pow;
    assert Level(t, top, top) == [t];
  }

  /** The loop of IsValidSolution on the rows of the leaves of one tree. */
  method ReduceAll(x0: seq<seq<byte>>, c: nat, width: nat,
                   ghost leaf: nat -> seq<byte>, len: nat, ghost t: Tree, ghost top: nat)
    returns (ok: bool)
    requires c <= 4 && len == Span(c, top + 1) && width == 2 * c + 4 * Pow2(top)
    requires Uniform(leaf, len) && Perfect(t, top) && Words(Indices(t)) && Span(c, top) <= len
    requires RowsOf(x0, leaf, len, c, Level(t, top, 0), 0) && AllValid(leaf, len, c, Level(t, top, 0), 0)
    ensures ok <==> Distinct(Indices(t)) && Collides(leaf, len, c, t, top) && Zero(Sum(leaf, len, t))
  {
    hide RowsOf, AllValid, Level, Sum, Collides, Distinct, Indices, Words, Zero, Uniform;
    var x := x0;
    var hashLen, lenIndices := len, 4;
    ghost var h := 0;
    while |x| > 1
      invariant h <= top && Span(c, h) <= len
      invariant hashLen == len - Span(c, h) && lenIndices == 4 * Pow2(h)
      invariant RowsOf(x, leaf, len, c, Level(t, top, h), h) && AllValid(leaf, len, c, Level(t, top, h), h)
      decreases top - h
    {
      RowCount(x, leaf, len, c, t, top, h);
      SpanMonotone(c, h + 1, top);
      LevelWidths(c, top, h);
      var level, xc := ReduceLevel(x, hashLen, lenIndices, c, width, leaf, len, t, top, h);
      if !level {
        ValidMeans(leaf, len, c, t, top);
        return false;
      }
      x := xc;
      h := h + 1;
      hashLen := hashLen - c;
      lenIndices := lenIndices * 2;
    }
    RowCount(x, leaf, len, c, t, top, h);
    LastLevel(leaf, len, c, t, top, x);
    ok := IsZero(x[0], hashLen);
  }

  lemma RowCount(x: seq<seq<byte>>, leaf: nat -> seq<byte>, len: nat, c: nat, t: Tree, top: nat, h: nat)
    requires Uniform(leaf, len) && Span(c, h) <= len && Perfect(t, top) && h <= top
    requires RowsOf(x, leaf, len, c, Level(t, top, h), h)
    ensures |x| > 1 <==> h < top
    ensures |x| >= 1
  {
    if h < top {
      PowMonotone(2, 1, top - h);
      assert Pow2(1) == 2;
    }
  }

  method IsValidSolution(p: Params, gen: nat -> seq<byte>, soln: seq<byte>) returns (ok: bool)
    requires p.Admissible() && Oracle(p, gen)
    ensures ok <==> IsSolution(p, gen, soln)
  {
    if |soln| != p.SolutionWidth() {
      return false;
    }
    hide Row, RowsOf, AllValid, Unpacked, Leaves, Pow, Words, Level, Collides, Sum, Distinct, Zero;
    SolutionSize(p, soln);
    var unpacked := GetIndicesFromMinimal(soln, p.CollisionBits());
    var ids := unpacked.value;
    var x := LeafRows(p, gen, ids);
    ghost var leaf, t := Leaves(p, gen), TreeOf(ids, p.k);
    FirstLevel(leaf, p.HashLength(), p.CollisionBytes(), t, p.k, x);
    ok := ReduceAll(x, p.CollisionBytes(), p.FinalFullWidth(), leaf, p.HashLength(), t, p.k);
  }
}
