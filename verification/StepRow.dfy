/**
Rows of the Equihash tables: a hash part followed by big-endian 32-bit indices.
The byte operations on rows are proved to be the tree operations they stand for.
*/
module StepRow {
  import opened Numbers
  import opened Bits
  import opened BitPacking
  import opened CollisionTree

  const INDEX_BYTES: nat := 4

  ghost predicate Words(ids: seq<nat>)
  {
    forall i :: 0 <= i < |ids| ==> ids[i] < WORD
  }

  /** The row that stands for a tree: what is left of the hash, then all indices. */
  ghost function Row(leaf: nat -> seq<byte>, len: nat, c: nat, t: Tree, h: nat): seq<byte>
    requires Uniform(leaf, len) && Perfect(t, h) && Span(c, h) <= len
  {
    RowHash(leaf, len, c, t, h) + Table(INDEX_BYTES, Indices(t))
  }

  // ---------------------------------------------------------------- byte order and index order

  lemma {:induction false} LexConcat(p: seq<nat>, a: seq<nat>, q: seq<nat>, b: seq<nat>)
    requires |p| == |q|
    ensures LexLess(p + a, q + b) <==> LexLess(p, q) || (p == q && LexLess(a, b))
  {
    if p == [] {
      assert p + a == a && q + b == b;
    } else {
      assert (p + a)[1..] == p[1..] + a && (q + b)[1..] == q[1..] + b;
      LexConcat(p[1..], a, q[1..], b);
      assert p == [p[0]] + p[1..] && q == [q[0]] + q[1..];
    }
  }

  /** The order of two numbers is decided by their high bits, then by their low bits. */
  lemma {:induction false} ShrOrder(x: nat, y: nat, k: nat)
    ensures x < y <==> Shr(x, k) < Shr(y, k) || (Shr(x, k) == Shr(y, k) && Low(x, k) < Low(y, k))
    ensures x == y <==> Shr(x, k) == Shr(y, k) && Low(x, k) == Low(y, k)
    decreases k
  {
    if k > 0 {
      ShrOrder(x / 2, y / 2, k - 1);
    }
  }

  lemma BytesStep(w: nat, x: nat)
    requires w > 0
    ensures BytesOf(w, x) == BytesOf(w - 1, Shr(x, 8)) + [Low(x, 8)]
  {
  }

  /** Big-endian bytes compare as the numbers they encode. */
  lemma {:induction false} BytesOrder(w: nat, x: nat, y: nat)
    requires x < Pow2(8 * w) && y < Pow2(8 * w)
    ensures LexLess(BytesOf(w, x), BytesOf(w, y)) <==> x < y
    ensures BytesOf(w, x) == BytesOf(w, y) <==> x == y
    decreases w
  {
    if w == 0 {
      NoBytes(x, y);
    } else {
      hide *;
      ShrSmall(w, x);
      ShrSmall(w, y);
      BytesOrder(w - 1, Shr(x, 8), Shr(y, 8));
      ShrOrder(x, y, 8);
      BytesStep(w, x);
      BytesStep(w, y);
      LexConcat(BytesOf(w - 1, Shr(x, 8)), [Low(x, 8)], BytesOf(w - 1, Shr(y, 8)), [Low(y, 8)]);
      LexOne(Low(x, 8), Low(y, 8));
      SplitLast(BytesOf(w - 1, Shr(x, 8)), Low(x, 8), BytesOf(w - 1, Shr(y, 8)), Low(y, 8));
    }
  }

  lemma NoBytes(x: nat, y: nat)
    requires x < Pow2(8 * 0) && y < Pow2(8 * 0)
    ensures BytesOf(0, x) == BytesOf(0, y) == [] && !LexLess([], []) && x == y == 0
  {
  }

  lemma LexOne(x: nat, y: nat)
    ensures LexLess([x], [y]) <==> x < y
  {
  }

  lemma SplitLast(p: seq<nat>, x: nat, q: seq<nat>, y: nat)
    ensures p + [x] == q + [y] <==> p == q && x == y
  {
    if p + [x] == q + [y] {
      assert p == (p + [x])[..|p|] && q == (q + [y])[..|q|];
      assert x == (p + [x])[|p|] && y == (q + [y])[|q|];
    }
  }

  lemma ShrSmall(w: nat, x: nat)
    requires w > 0 && x < Pow2(8 * w)
    ensures Shr(x, 8) < Pow2(8 * (w - 1))
  {
    LowSmall(x, 8 * w);
    ShrLow(x, 8, 8 * (w - 1));
    LowShr(Shr(x, 8), 8 * (w - 1));
  }

  lemma TableParts(ids: seq<nat>, n: nat)
    requires |ids| == n + 1
    ensures ids == ids[..n] + [ids[n]]
    ensures Table(INDEX_BYTES, ids) == Table(INDEX_BYTES, ids[..n]) + BytesOf(INDEX_BYTES, ids[n])
    ensures |Table(INDEX_BYTES, ids[..n])| == Span(INDEX_BYTES, n) && |BytesOf(INDEX_BYTES, ids[n])| == 4
  {
    hide BytesOf, Span;
    TableLength(INDEX_BYTES, ids[..n]);
    assert ids[..|ids| - 1] == ids[..n];
  }

  lemma SplitAt<T>(p: seq<T>, x: seq<T>, q: seq<T>, y: seq<T>)
    requires |p| == |q|
    ensures p + x == q + y <==> p == q && x == y
  {
    if p + x == q + y {
      assert p == (p + x)[..|p|] && q == (q + y)[..|q|];
      assert x == (p + x)[|p|..] && y == (q + y)[|q|..];
    }
  }

  /** Index lists compare as the bytes stored in a row do. */
  lemma {:induction false} TableOrder(a: seq<nat>, b: seq<nat>)
    requires |a| == |b| && Words(a) && Words(b)
    ensures LexLess(Table(INDEX_BYTES, a), Table(INDEX_BYTES, b)) <==> LexLess(a, b)
    ensures Table(INDEX_BYTES, a) == Table(INDEX_BYTES, b) <==> a == b
  {
    if a == [] {
      assert b == [];
    } else {
      hide LexLess, Table, BytesOf, Span, Pow;
      var n := |a| - 1;
      PowWord();
      TableParts(a, n);
      TableParts(b, n);
      TableOrder(a[..n], b[..n]);
      BytesOrder(INDEX_BYTES, a[n], b[n]);
      LexConcat(Table(INDEX_BYTES, a[..n]), BytesOf(INDEX_BYTES, a[n]),
                Table(INDEX_BYTES, b[..n]), BytesOf(INDEX_BYTES, b[n]));
      LexConcat(a[..n], [a[n]], b[..n], [b[n]]);
      LexOne(a[n], b[n]);
      SplitAt(Table(INDEX_BYTES, a[..n]), BytesOf(INDEX_BYTES, a[n]),
              Table(INDEX_BYTES, b[..n]), BytesOf(INDEX_BYTES, b[n]));
      SplitLast(a[..n], a[n], b[..n], b[n]);
    }
  }

  lemma {:induction false} TableConcat(w: nat, a: seq<nat>, b: seq<nat>)
    ensures Table(w, a + b) == Table(w, a) + Table(w, b)
  {
    hide BytesOf, Pow;
    if b == [] {
      assert a + b == a;
    } else {
      var n := |b| - 1;
      assert (a + b)[..|a| + n] == a + b[..n];
      TableConcat(w, a, b[..n]);
      assert Table(w, a + b) == Table(w, a + b[..n]) + BytesOf(w, b[n]);
    }
  }

  // ---------------------------------------------------------------- row operations

  method HasCollision(a: seq<byte>, b: seq<byte>, l: nat) returns (r: bool)
    requires l <= |a| && l <= |b|
    ensures r <==> a[..l] == b[..l]
  {
    for j := 0 to l
      invariant a[..j] == b[..j]
    {
      if a[j] != b[j] {
        assert a[..l][j] != b[..l][j];
        return false;
      }
    }
    return true;
  }

  predicate IndicesBefore(a: seq<byte>, b: seq<byte>, len: nat, lenIndices: nat)
    requires len + lenIndices <= |a| && len + lenIndices <= |b|
  {
    LexLess(a[len..len + lenIndices], b[len..len + lenIndices])
  }

  /** The row that merging two rows gives: hashes xored past `trim`, smaller index list first. */
  ghost function Merged(a: seq<byte>, b: seq<byte>, len: nat, lenIndices: nat, trim: nat): (row: seq<byte>)
    requires len + lenIndices <= |a| && len + lenIndices <= |b| && trim <= len
    ensures |row| == len - trim + 2 * lenIndices
  {
    XorBytes(a[trim..len], b[trim..len]) +
    if IndicesBefore(a, b, len, lenIndices)
    then a[len..len + lenIndices] + b[len..len + lenIndices]
    else b[len..len + lenIndices] + a[len..len + lenIndices]
  }

  /** The merge constructor, for rows of w bytes merged into one of width bytes, with its two assertions. */
  method MergeRows(a: seq<byte>, b: seq<byte>, len: nat, lenIndices: nat, trim: nat, w: nat, width: nat)
    returns (row: seq<byte>)
    requires len + lenIndices <= |a| && len + lenIndices <= |b| && trim <= len
    requires len + lenIndices <= w && len - trim + 2 * lenIndices <= width
    ensures row == Merged(a, b, len, lenIndices, trim)
  {
    row := [];
    for i := trim to len
      invariant row == XorBytes(a[trim..i], b[trim..i])
    {
      row := row + [XorByte(a[i], b[i])];
    }
    if IndicesBefore(a, b, len, lenIndices) {
      row := row + a[len..len + lenIndices] + b[len..len + lenIndices];
    } else {
      row := row + b[len..len + lenIndices] + a[len..len + lenIndices];
    }
  }

  lemma {:induction false} TableIndex(ids: seq<nat>, k: nat)
    requires k < |ids|
    ensures |Table(INDEX_BYTES, ids)| == 4 * |ids|
    ensures Table(INDEX_BYTES, ids)[4 * k..4 * k + 4] == BytesOf(INDEX_BYTES, ids[k])
  {
    hide Table, BytesOf, Span;
    var n := |ids| - 1;
    TableParts(ids, n);
    SpanIsMul(INDEX_BYTES, n);
    var p, x := Table(INDEX_BYTES, ids[..n]), BytesOf(INDEX_BYTES, ids[n]);
    if k < n {
      TableIndex(ids[..n], k);
      assert (p + x)[4 * k..4 * k + 4] == p[4 * k..4 * k + 4];
    } else {
      assert (p + x)[4 * k..4 * k + 4] == x;
    }
  }

  /** The 32-bit indices stored in the index part of a row. */
  ghost function IndexList(bytes: seq<byte>): seq<nat>
  {
    seq(|bytes| / 4, i requires 0 <= i < |bytes| / 4 => Number(8, bytes[4 * i..4 * i + 4]))
  }

  lemma IndexListOfTable(ids: seq<nat>)
    requires Words(ids)
    ensures |Table(INDEX_BYTES, ids)| == 4 * |ids| && IndexList(Table(INDEX_BYTES, ids)) == ids
  {
    hide Table, BytesOf, Number, Pow, Low;
    TableLength(INDEX_BYTES, ids);
    SpanIsMul(INDEX_BYTES, |ids|);
    forall i | 0 <= i < |ids| ensures IndexList(Table(INDEX_BYTES, ids))[i] == ids[i] {
      TableIndex(ids, i);
      PowWord();
      ElementRoundTrip(32, INDEX_BYTES, ids[i]);
    }
  }

  lemma SameIndex(a: seq<byte>, b: seq<byte>)
    requires |a| == |b|
    ensures a == b <==> Number(8, a) == Number(8, b)
  {
    PowWord();
    CutOfNumber(8, a);
    CutOfNumber(8, b);
  }

  lemma IndexCountOf(a: seq<byte>, len: nat, lenIndices: nat)
    requires len + lenIndices <= |a|
    ensures |IndexList(a[len..len + lenIndices])| == lenIndices / 4
  {
  }

  lemma IndexAt(a: seq<byte>, len: nat, lenIndices: nat, i: nat)
    requires len + lenIndices <= |a| && i % 4 == 0 && i + 4 <= lenIndices
    ensures |IndexList(a[len..len + lenIndices])| == lenIndices / 4
    ensures IndexList(a[len..len + lenIndices])[i / 4] == Number(8, a[len + i..len + i + 4])
  {
    var s := a[len..len + lenIndices];
    assert 4 * (i / 4) == i;
    SubSlice(a, len, len + lenIndices, i, i + 4);
  }

  lemma SubSlice<T>(s: seq<T>, lo: nat, hi: nat, i: nat, j: nat)
    requires lo <= hi <= |s| && i <= j && lo + j <= hi
    ensures s[lo..hi][i..j] == s[lo + i..lo + j]
  {
    forall k | 0 <= k < j - i ensures s[lo..hi][i..j][k] == s[lo + i..lo + j][k] {
      assert s[lo..hi][i + k] == s[lo + i + k];
    }
  }

  /** Checks that no index of one row occurs in the other. */
  method DistinctIndices(a: seq<byte>, b: seq<byte>, len: nat, lenIndices: nat) returns (r: bool)
    requires len + lenIndices <= |a| && len + lenIndices <= |b| && lenIndices % 4 == 0
    ensures r <==> Disjoint(IndexList(a[len..len + lenIndices]), IndexList(b[len..len + lenIndices]))
  {
    hide Number, IndexList;
    IndexCountOf(a, len, lenIndices);
    IndexCountOf(b, len, lenIndices);
    ghost var x, y := IndexList(a[len..len + lenIndices]), IndexList(b[len..len + lenIndices]);
    var i := 0;
    while i < lenIndices
      invariant 0 <= i <= lenIndices && i % 4 == 0
      invariant forall k, m :: 0 <= k < i / 4 && 0 <= m < |y| ==> x[k] != y[m]
    {
      var j := 0;
      while j < lenIndices
        invariant 0 <= j <= lenIndices && j % 4 == 0
        invariant forall m :: 0 <= m < j / 4 ==> x[i / 4] != y[m]
      {
        IndexAt(a, len, lenIndices, i);
        IndexAt(b, len, lenIndices, j);
        SameIndex(a[len + i..len + i + 4], b[len + j..len + j + 4]);
        if a[len + i..len + i + 4] == b[len + j..len + j + 4] {
          return false;
        }
        j := j + 4;
      }
      i := i + 4;
    }
    return true;
  }

  // ---------------------------------------------------------------- rows of trees

  /** Where the hash ends and the indices begin in the row of a tree. */
  lemma RowLayout(leaf: nat -> seq<byte>, len: nat, c: nat, t: Tree, h: nat)
    requires Uniform(leaf, len) && Perfect(t, h) && Span(c, h) <= len
    ensures |Row(leaf, len, c, t, h)| == len - Span(c, h) + 4 * Pow2(h)
    ensures Row(leaf, len, c, t, h)[..len - Span(c, h)] == RowHash(leaf, len, c, t, h)
    ensures Row(leaf, len, c, t, h)[len - Span(c, h)..] == Table(INDEX_BYTES, Indices(t))
  {
    IndexCount(t, h);
    TableLength(INDEX_BYTES, Indices(t));
    SpanIsMul(INDEX_BYTES, |Indices(t)|);
  }

  ghost function Ordered(l: Tree, r: Tree): Tree
  {
    if LexLess(Indices(l), Indices(r)) then Node(l, r) else Node(r, l)
  }

  lemma NodeIndices(l: Tree, r: Tree)
    ensures Indices(Node(l, r)) == Indices(l) + Indices(r)
  {
  }

  lemma NodeRowHash(leaf: nat -> seq<byte>, len: nat, c: nat, l: Tree, r: Tree, h: nat)
    requires Uniform(leaf, len) && Perfect(l, h) && Perfect(r, h) && Span(c, h + 1) <= len
    ensures var a, b := RowHash(leaf, len, c, l, h), RowHash(leaf, len, c, r, h);
            && RowHash(leaf, len, c, Node(l, r), h + 1) == XorBytes(a[c..], b[c..])
            && RowHash(leaf, len, c, Node(r, l), h + 1) == XorBytes(a[c..], b[c..])
  {
    var a, b := RowHash(leaf, len, c, l, h), RowHash(leaf, len, c, r, h);
    assert XorBytes(a, b)[c..] == XorBytes(a[c..], b[c..]);
    XorBytesCommutes(a, b);
  }

  lemma MergedParts(ha: seq<byte>, ta: seq<byte>, hb: seq<byte>, tb: seq<byte>, trim: nat)
    requires |ha| == |hb| && |ta| == |tb| && trim <= |ha|
    ensures Merged(ha + ta, hb + tb, |ha|, |ta|, trim)
         == XorBytes(ha[trim..], hb[trim..]) + if LexLess(ta, tb) then ta + tb else tb + ta
  {
    hide XorBytes, LexLess;
    var a, b, hl, li := ha + ta, hb + tb, |ha|, |ta|;
    assert a[trim..hl] == ha[trim..] && b[trim..hl] == hb[trim..];
    assert a[hl..hl + li] == ta && b[hl..hl + li] == tb;
  }

  /** Merging the rows of two trees gives the row of the tree above them. */
  lemma MergedIsRow(leaf: nat -> seq<byte>, len: nat, c: nat, l: Tree, r: Tree, h: nat)
    requires Uniform(leaf, len) && Perfect(l, h) && Perfect(r, h) && Span(c, h + 1) <= len
    requires Words(Indices(l)) && Words(Indices(r))
    ensures Perfect(Ordered(l, r), h + 1) && Span(c, h) + c <= len
    ensures |Row(leaf, len, c, l, h)| == |Row(leaf, len, c, r, h)| == len - Span(c, h) + 4 * Pow2(h)
    ensures Merged(Row(leaf, len, c, l, h), Row(leaf, len, c, r, h), len - Span(c, h), 4 * Pow2(h), c)
         == Row(leaf, len, c, Ordered(l, r), h + 1)
  {
    hide RowHash, XorBytes, Table, LexLess, Pow, Merged, Words, Uniform, Indices;
    var x, y := Indices(l), Indices(r);
    NodeIndices(l, r);
    NodeIndices(r, l);
    RowLayout(leaf, len, c, l, h);
    RowLayout(leaf, len, c, r, h);
    MergedParts(RowHash(leaf, len, c, l, h), Table(INDEX_BYTES, x),
                RowHash(leaf, len, c, r, h), Table(INDEX_BYTES, y), c);
    NodeRowHash(leaf, len, c, l, r, h);
    IndexCount(l, h);
    IndexCount(r, h);
    TableOrder(x, y);
    TableConcat(INDEX_BYTES, x, y);
    TableConcat(INDEX_BYTES, y, x);
  }
}
