/**
What an Equihash solution is: a perfect binary tree of indices whose every
subtree collides on one more block than its children. Two descriptions are given
and proved to agree. `Valid` says it node by node, the way rows are merged;
`Solution` says it globally, about sums of leaf hashes and the flat index list.
*/
module CollisionTree {
  import opened Numbers
  import opened Bits

  datatype Tree = Leaf(index: nat) | Node(left: Tree, right: Tree)

  ghost predicate Perfect(t: Tree, h: nat)
  {
    match t
    case Leaf(_) => h == 0
    case Node(l, r) => h > 0 && Perfect(l, h - 1) && Perfect(r, h - 1)
  }

  ghost function Indices(t: Tree): (ids: seq<nat>)
    ensures |ids| > 0
  {
    match t
    case Leaf(i) => [i]
    case Node(l, r) => Indices(l) + Indices(r)
  }

  lemma {:induction false} IndexCount(t: Tree, h: nat)
    requires Perfect(t, h)
    ensures |Indices(t)| == Pow2(h)
  {
    if t.Node? {
      IndexCount(t.left, h - 1);
      IndexCount(t.right, h - 1);
    }
  }

  /** The perfect tree over a list of 2^h indices, by halves. */
  ghost function TreeOf(ids: seq<nat>, h: nat): (t: Tree)
    requires |ids| == Pow2(h)
    ensures Perfect(t, h) && Indices(t) == ids
    decreases h
  {
    if h == 0 then Leaf(ids[0])
    else
      var m := Pow2(h - 1);
      Node(TreeOf(ids[..m], h - 1), TreeOf(ids[m..], h - 1))
  }

  lemma {:induction false} TreeDetermined(s: Tree, t: Tree, h: nat)
    requires Perfect(s, h) && Perfect(t, h) && Indices(s) == Indices(t)
    ensures s == t
    decreases h
  {
    if h > 0 {
      IndexCount(s.left, h - 1);
      IndexCount(t.left, h - 1);
      var m := Pow2(h - 1);
      assert Indices(s)[..m] == Indices(s.left) && Indices(s)[m..] == Indices(s.right);
      assert Indices(t)[..m] == Indices(t.left) && Indices(t)[m..] == Indices(t.right);
      TreeDetermined(s.left, t.left, h - 1);
      TreeDetermined(s.right, t.right, h - 1);
    }
  }

  // ---------------------------------------------------------------- hashes

  lemma XorBytesCommutes(a: seq<byte>, b: seq<byte>)
    requires |a| == |b|
    ensures XorBytes(a, b) == XorBytes(b, a)
  {
    forall i | 0 <= i < |a| ensures XorByte(a[i], b[i]) == XorByte(b[i], a[i]) {
      XorCommutes(a[i], b[i]);
    }
  }

  lemma XorBytesCancels(a: seq<byte>, b: seq<byte>)
    requires |a| == |b|
    ensures (forall i :: 0 <= i < |a| ==> XorBytes(a, b)[i] == 0) <==> a == b
  {
    forall i | 0 <= i < |a| ensures XorBytes(a, b)[i] == 0 <==> a[i] == b[i] {
      XorCancels(a[i], b[i]);
    }
  }

  /** Every leaf hash has the same length. */
  ghost predicate Uniform(leaf: nat -> seq<byte>, len: nat)
  {
    forall i :: |leaf(i)| == len
  }

  /** The xor of the hashes of all leaves. */
  ghost function Sum(leaf: nat -> seq<byte>, len: nat, t: Tree): (s: seq<byte>)
    requires Uniform(leaf, len)
    ensures |s| == len
  {
    match t
    case Leaf(i) => leaf(i)
    case Node(l, r) => XorBytes(Sum(leaf, len, l), Sum(leaf, len, r))
  }

  /** The hash part of a row: each merge xors and drops the block it collided on. */
  ghost function RowHash(leaf: nat -> seq<byte>, len: nat, c: nat, t: Tree, h: nat): (s: seq<byte>)
    requires Uniform(leaf, len) && Perfect(t, h) && Span(c, h) <= len
    ensures |s| == len - Span(c, h)
    decreases h
  {
    match t
    case Leaf(i) => leaf(i)
    case Node(l, r) =>
      XorBytes(RowHash(leaf, len, c, l, h - 1), RowHash(leaf, len, c, r, h - 1))[c..]
  }

  lemma {:induction false} RowHashIsSum(leaf: nat -> seq<byte>, len: nat, c: nat, t: Tree, h: nat)
    requires Uniform(leaf, len) && Perfect(t, h) && Span(c, h) <= len
    ensures RowHash(leaf, len, c, t, h) == Sum(leaf, len, t)[Span(c, h)..]
    decreases h
  {
    hide Pow, Indices;
    if h > 0 {
      RowHashIsSum(leaf, len, c, t.left, h - 1);
      RowHashIsSum(leaf, len, c, t.right, h - 1);
      var a, b := Sum(leaf, len, t.left), Sum(leaf, len, t.right);
      var m := Span(c, h - 1);
      assert XorBytes(a[m..], b[m..])[c..] == XorBytes(a, b)[m + c..];
    }
  }

  // ---------------------------------------------------------------- order and distinctness

  /** Lexicographic order, as memcmp compares. */
  predicate LexLess(a: seq<nat>, b: seq<nat>)
  {
    if a == [] || b == [] then a == [] && b != []
    else a[0] < b[0] || (a[0] == b[0] && LexLess(a[1..], b[1..]))
  }

  ghost predicate Disjoint(a: seq<nat>, b: seq<nat>)
  {
    forall i, j :: 0 <= i < |a| && 0 <= j < |b| ==> a[i] != b[j]
  }

  ghost predicate Distinct(a: seq<nat>)
  {
    forall i, j :: 0 <= i < j < |a| ==> a[i] != a[j]
  }

  lemma DistinctConcat(a: seq<nat>, b: seq<nat>)
    ensures Distinct(a + b) <==> Distinct(a) && Distinct(b) && Disjoint(a, b)
  {
    var s := a + b;
    if Distinct(s) {
      forall i, j | 0 <= i < j < |b| ensures b[i] != b[j] {
        assert s[|a| + i] == b[i] && s[|a| + j] == b[j];
      }
      forall i, j | 0 <= i < |a| && 0 <= j < |b| ensures a[i] != b[j] {
        assert s[i] == a[i] && s[|a| + j] == b[j];
      }
      forall i, j | 0 <= i < j < |a| ensures a[i] != a[j] {
        assert s[i] == a[i] && s[j] == a[j];
      }
    }
  }

  /** Exactly one of two different equally long lists comes first. */
  lemma {:induction false} LexTotal(a: seq<nat>, b: seq<nat>)
    requires |a| == |b|
    ensures a == b ==> !LexLess(a, b) && !LexLess(b, a)
    ensures a != b ==> (LexLess(a, b) <==> !LexLess(b, a))
  {
    if a != [] {
      LexTotal(a[1..], b[1..]);
      assert a == [a[0]] + a[1..] && b == [b[0]] + b[1..];
    }
  }

  lemma DisjointDiffer(a: seq<nat>, b: seq<nat>)
    requires |a| > 0 && |b| > 0 && Disjoint(a, b)
    ensures a != b && a[0] != b[0]
  {
    assert a[0] != b[0];
  }

  // ---------------------------------------------------------------- validity

  /** A tree that the merging rounds build: collision, order and disjointness at every node. */
  ghost predicate Valid(leaf: nat -> seq<byte>, len: nat, c: nat, t: Tree, h: nat)
    requires Uniform(leaf, len) && Perfect(t, h) && Span(c, h) <= len
    decreases h
  {
    t.Node? ==>
      && Valid(leaf, len, c, t.left, h - 1)
      && Valid(leaf, len, c, t.right, h - 1)
      && RowHash(leaf, len, c, t.left, h - 1)[..c] == RowHash(leaf, len, c, t.right, h - 1)[..c]
      && LexLess(Indices(t.left), Indices(t.right))
      && Disjoint(Indices(t.left), Indices(t.right))
  }

  ghost predicate Zero(s: seq<byte>)
  {
    forall i :: 0 <= i < |s| ==> s[i] == 0
  }

  /**
  The collision conditions of every subtree: at height h the leaf hashes xor to
  zero on the first h blocks, and the first index of the left half is the smaller.
  */
  ghost predicate Collides(leaf: nat -> seq<byte>, len: nat, c: nat, t: Tree, h: nat)
    requires Uniform(leaf, len) && Perfect(t, h) && Span(c, h) <= len
    decreases h
  {
    && Zero(Sum(leaf, len, t)[..Span(c, h)])
    && match t
       case Leaf(_) => true
       case Node(l, r) =>
         && Indices(l)[0] < Indices(r)[0]
         && Collides(leaf, len, c, l, h - 1)
         && Collides(leaf, len, c, r, h - 1)
  }

  lemma BlockCollision(a: seq<byte>, b: seq<byte>, m: nat, c: nat)
    requires |a| == |b| && m + c <= |a| && Zero(a[..m]) && Zero(b[..m])
    ensures Zero(XorBytes(a, b)[..m + c]) <==> a[m..m + c] == b[m..m + c]
  {
    XorBytesCancels(a[..m + c], b[..m + c]);
    assert XorBytes(a[..m + c], b[..m + c]) == XorBytes(a, b)[..m + c];
    assert a[..m + c] == a[..m] + a[m..m + c] && b[..m + c] == b[..m] + b[m..m + c];
    assert a[..m] == b[..m];
  }

  /** Rows collide on their leading block exactly when the merged tree xors to zero one block further. */
  lemma MergeCollision(leaf: nat -> seq<byte>, len: nat, c: nat, l: Tree, r: Tree, h: nat)
    requires Uniform(leaf, len) && Perfect(l, h) && Perfect(r, h) && Span(c, h + 1) <= len
    requires Zero(Sum(leaf, len, l)[..Span(c, h)]) && Zero(Sum(leaf, len, r)[..Span(c, h)])
    ensures RowHash(leaf, len, c, l, h)[..c] == RowHash(leaf, len, c, r, h)[..c]
       <==> Zero(Sum(leaf, len, Node(l, r))[..Span(c, h + 1)])
  {
    hide Zero, XorBytes, RowHash, Pow, Indices;
    var a, b, m := Sum(leaf, len, l), Sum(leaf, len, r), Span(c, h);
    RowHashIsSum(leaf, len, c, l, h);
    RowHashIsSum(leaf, len, c, r, h);
    BlockCollision(a, b, m, c);
    assert a[m..][..c] == a[m..m + c] && b[m..][..c] == b[m..m + c];
  }

  /** Disjoint index lists are ordered by their first index. */
  lemma FirstDecides(a: seq<nat>, b: seq<nat>)
    requires |a| > 0 && |b| > 0 && Disjoint(a, b)
    ensures LexLess(a, b) <==> a[0] < b[0]
  {
    DisjointDiffer(a, b);
  }

  /** Node-by-node validity is global distinctness plus the collision conditions. */
  lemma {:induction false} ValidMeans(leaf: nat -> seq<byte>, len: nat, c: nat, t: Tree, h: nat)
    requires Uniform(leaf, len) && Perfect(t, h) && Span(c, h) <= len
    ensures Valid(leaf, len, c, t, h) <==> Distinct(Indices(t)) && Collides(leaf, len, c, t, h)
    decreases h
  {
    hide Sum, RowHash, Disjoint, LexLess, Pow, XorBytes;
    if t.Node? {
      var l, r := t.left, t.right;
      ValidMeans(leaf, len, c, l, h - 1);
      ValidMeans(leaf, len, c, r, h - 1);
      DistinctConcat(Indices(l), Indices(r));
      if Collides(leaf, len, c, l, h - 1) && Collides(leaf, len, c, r, h - 1) {
        MergeCollision(leaf, len, c, l, r, h - 1);
      }
      if Disjoint(Indices(l), Indices(r)) {
        FirstDecides(Indices(l), Indices(r));
      }
    }
  }

  lemma CollidesZero(leaf: nat -> seq<byte>, len: nat, c: nat, t: Tree, h: nat)
    requires Uniform(leaf, len) && Perfect(t, h) && Span(c, h) <= len && Collides(leaf, len, c, t, h)
    ensures Zero(Sum(leaf, len, t)[..Span(c, h)])
  {
  }

  lemma ZeroSplit(s: seq<byte>, m: nat)
    requires m <= |s|
    ensures Zero(s) <==> Zero(s[..m]) && Zero(s[m..])
  {
    if Zero(s[..m]) && Zero(s[m..]) {
      forall i | 0 <= i < |s| ensures s[i] == 0 {
        if i < m {
          assert s[i] == s[..m][i];
        } else {
          assert s[i] == s[m..][i - m];
        }
      }
    }
  }

  /**
  A solution for k rounds on blocks of c bytes: 2^k globally distinct indices,
  every subtree colliding on as many blocks as it is high, and everything xoring to zero.
  */
  ghost predicate Solution(leaf: nat -> seq<byte>, len: nat, c: nat, k: nat, ids: seq<nat>)
    requires Uniform(leaf, len) && Span(c, k + 1) == len
  {
    && |ids| == Pow2(k)
    && Distinct(ids)
    && Collides(leaf, len, c, TreeOf(ids, k), k)
    && Zero(Sum(leaf, len, TreeOf(ids, k)))
  }

  // ---------------------------------------------------------------- trees over equal hashes

  /** The tree over the 2^h indices from a on. */
  ghost function Consecutive(a: nat, h: nat): (t: Tree)
    ensures Perfect(t, h)
    decreases h
  {
    if h == 0 then Leaf(a) else Node(Consecutive(a, h - 1), Consecutive(a + Pow2(h - 1), h - 1))
  }

  lemma {:induction false} ConsecutiveIndices(a: nat, h: nat)
    ensures var ids := Indices(Consecutive(a, h));
      |ids| == Pow2(h) && forall i :: 0 <= i < |ids| ==> ids[i] == a + i
    decreases h
  {
    if h > 0 {
      ConsecutiveIndices(a, h - 1);
      ConsecutiveIndices(a + Pow2(h - 1), h - 1);
    }
  }

  lemma {:induction false} EqualRowHashes(leaf: nat -> seq<byte>, len: nat, c: nat, s: Tree, t: Tree, h: nat)
    requires Uniform(leaf, len) && Perfect(s, h) && Perfect(t, h) && Span(c, h) <= len
    requires forall i, j :: leaf(i) == leaf(j)
    ensures RowHash(leaf, len, c, s, h) == RowHash(leaf, len, c, t, h)
    decreases h
  {
    if h > 0 {
      EqualRowHashes(leaf, len, c, s.left, t.left, h - 1);
      EqualRowHashes(leaf, len, c, s.right, t.right, h - 1);
    }
  }

  /** When all leaf hashes are equal, trees over consecutive indices are valid. */
  lemma {:induction false} ConsecutiveIsValid(leaf: nat -> seq<byte>, len: nat, c: nat, a: nat, h: nat)
    requires Uniform(leaf, len) && Span(c, h) <= len && forall i, j :: leaf(i) == leaf(j)
    ensures Valid(leaf, len, c, Consecutive(a, h), h)
    decreases h
  {
    hide RowHash, Disjoint, LexLess, Pow, Indices;
    if h > 0 {
      var b := a + Pow2(h - 1);
      var l, r := Consecutive(a, h - 1), Consecutive(b, h - 1);
      ConsecutiveIsValid(leaf, len, c, a, h - 1);
      ConsecutiveIsValid(leaf, len, c, b, h - 1);
      EqualRowHashes(leaf, len, c, l, r, h - 1);
      ConsecutiveIndices(a, h - 1);
      ConsecutiveIndices(b, h - 1);
      AllBelow(Indices(l), Indices(r), b);
    }
  }

  lemma AllBelow(a: seq<nat>, b: seq<nat>, bound: nat)
    requires |a| > 0 && |b| > 0
    requires (forall i :: 0 <= i < |a| ==> a[i] < bound) && forall i :: 0 <= i < |b| ==> b[i] >= bound
    ensures Disjoint(a, b) && LexLess(a, b)
  {
  }
}
