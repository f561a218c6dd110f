/**
The Equihash parameters N and K with the sizes derived from them, the leaf rows,
and the minimal encoding of index lists.
*/
module EquihashParams {
  import opened Numbers
  import opened Bits
  import opened Results
  import opened BitPacking
  import opened CollisionTree
  import opened StepRow

  datatype Params = Params(n: nat, k: nat) {
    function IndicesPerHashOutput(): nat
      requires n > 0
    {
      512 / n
    }

    function HashOutput(): nat
      requires n > 0
    {
      IndicesPerHashOutput() * n / 8
    }

    function CollisionBits(): nat
    {
      n / (k + 1)
    }

    function CollisionBytes(): nat
    {
      (CollisionBits() + 7) / 8
    }

    function HashLength(): nat
    {
      Span(CollisionBytes(), k + 1)
    }

    function FullWidth(): nat
      requires k > 0
    {
      2 * CollisionBytes() + 4 * Pow2(k - 1)
    }

    function FinalFullWidth(): nat
    {
      2 * CollisionBytes() + 4 * Pow2(k)
    }

    function SolutionWidth(): nat
    {
      Pow2(k) * (CollisionBits() + 1) / 8
    }

    /** Bits of one index in a solution. */
    function IndexBits(): nat
    {
      CollisionBits() + 1
    }

    /** What the compiler checks. */
    predicate StaticAssertions()
    {
      k < n && n % 8 == 0 && CollisionBits() + 1 < 32
    }

    /**
    What the packing functions assert when a leaf is expanded, and when indices are expanded
    or compressed: element sizes from 8 to 25 bits, and the length of the leaf's hash. The
    lengths asserted for index lists are computed by the very formula that is asserted.
    */
    predicate PackingAssertions()
    {
      && CollisionBits() >= 8 && 7 + CollisionBits() <= 32
      && HashLength() == 8 * CollisionBytes() * (n / 8) / CollisionBits()
      && (IndexBits() + 7) / 8 <= 4 && IndexBits() >= 8 && 7 + IndexBits() <= 32
    }

    /** The same in terms of the parameters: blocks of 8 to 24 bits, and few bits left over. */
    predicate Packs()
    {
      8 <= CollisionBits() <= 24 && CollisionBytes() * (n % (k + 1)) < CollisionBits()
    }

    /** Parameters that pass these assertions, get a leaf out of a hash, and pack solutions into whole bytes. */
    predicate Admissible()
    {
      0 < k < n <= 512 && n % 8 == 0 && Packs() && Pow2(k) * IndexBits() % 8 == 0
    }
  }

  /** The exact condition for the assertions of the packing functions. */
  lemma PackingExactly(p: Params)
    requires p.n % 8 == 0
    ensures p.PackingAssertions() <==> p.Packs()
  {
    hide Span;
    var cb, c, r := p.CollisionBits(), p.CollisionBytes(), p.n % (p.k + 1);
    DivModEquation(p.n, p.k + 1);
    SpanIsMul(c, p.k + 1);
    if cb >= 8 {
      LeftOver(cb, c, p.k + 1, r, p.n);
      assert 8 * c * (p.n / 8) == c * p.n;
    }
  }

  lemma LeftOver(cb: nat, c: nat, blocks: nat, r: nat, n: nat)
    requires cb > 0 && n == cb * blocks + r
    ensures c * n / cb == c * blocks <==> c * r < cb
  {
    DivModEquation(c * r, cb);
    DivNonNegative(c * r, cb);
    var q, m := c * r / cb, c * r % cb;
    assert c * n == (c * blocks + q) * cb + m by {
      Distributes(c, cb * blocks, r);
      MulAssoc(c, blocks, cb);
      Distributes(cb, c * blocks, q);
    }
    DivModUnique(c * n, cb, c * blocks + q, m);
    if c * r < cb {
      DivModSmall(c * r, cb);
    } else {
      DivAtLeast(c * r, cb, 1);
    }
  }

  /** Parameters that compile and fail: the bits left over hold another whole byte of the expanded hash. */
  lemma StaticAssertionsAreNotEnough()
    ensures Params(88, 8).StaticAssertions() && !Params(88, 8).PackingAssertions()
  {
    PackingExactly(Params(88, 8));
  }

  /** All instantiated parameters are admissible, and so are some that do not divide evenly. */
  lemma Instances()
    ensures Params(96, 3).Admissible() && Params(200, 9).Admissible()
    ensures Params(96, 5).Admissible() && Params(48, 5).Admissible()
    ensures Params(88, 4).Admissible()
    ensures forall p :: p in {Params(96, 3), Params(200, 9), Params(96, 5), Params(48, 5)} ==> p.k <= p.IndexBits()
  {
    EightTimes(3, 25);
    EightTimes(9, 21);
    EightTimes(5, 17);
    EightTimes(5, 9);
    EightTimes(4, 18);
  }

  lemma WidthGrows(p: nat, q: nat, c: nat)
    requires p <= q && c <= 4
    ensures Span(c, q - p) + 4 * Pow2(p) <= 4 * Pow2(q)
    decreases q
  {
    PowPositive(2, p);
    if p < q {
      WidthGrows(p, q - 1, c);
      PowMonotone(2, p, q - 1);
    }
  }

  lemma {:induction false} SpanAdd(c: nat, m: nat, n: nat)
    ensures Span(c, m + n) == Span(c, m) + Span(c, n)
    decreases n
  {
    if n > 0 {
      SpanAdd(c, m, n - 1);
    }
  }

  lemma RowWidth(c: nat, k: nat, h: nat, top: nat)
    requires c <= 4 && h <= top <= k
    ensures Span(c, k + 1) - Span(c, h) + 4 * Pow2(h) <= Span(c, k + 1) - Span(c, top) + 4 * Pow2(top)
  {
    hide Pow, Span;
    SpanAdd(c, h, top - h);
    WidthGrows(h, top, c);
  }

  lemma TwoBlocks(c: nat, k: nat)
    requires k > 0
    ensures Span(c, k + 1) - Span(c, k - 1) == 2 * c && Span(c, k + 1) - Span(c, k) == c
  {
  }

  /** The widths of rows before and after round r, for blocks of c bytes. */
  lemma RoundWidths(c: nat, k: nat, r: nat)
    requires c <= 4 && 1 <= r <= k && Span(c, r - 1) <= Span(c, k + 1)
    ensures var hashLen, lenIndices := Span(c, k + 1) - Span(c, r - 1), 4 * Pow2(r - 1);
            && hashLen + lenIndices <= 2 * c + 4 * Pow2(k - 1)
            && (r < k ==> c <= hashLen && hashLen - c + 2 * lenIndices <= 2 * c + 4 * Pow2(k - 1))
            && (r == k ==> hashLen + 2 * lenIndices <= 2 * c + 4 * Pow2(k))
  {
    hide Pow, Span;
    RowWidth(c, k, r - 1, k - 1);
    TwoBlocks(c, k);
    NextRow(c, r);
    if r < k {
      RowWidth(c, k, r, k - 1);
      SpanMonotone(c, r, k + 1);
    }
  }

  /**
  Neither width assertion of the merge constructor can fail: before round r (1 <= r < k)
  rows have hashLen bytes of hash and lenIndices bytes of indices, and both they and the
  merged rows fit in FullWidth; the last merge fits in FinalFullWidth.
  */
  lemma MergeWidths(p: Params, r: nat)
    requires p.Admissible() && 1 <= r <= p.k
    ensures var c := p.CollisionBytes();
            Span(c, r - 1) <= p.HashLength() &&
            var hashLen, lenIndices := p.HashLength() - Span(c, r - 1), 4 * Pow2(r - 1);
            && hashLen + lenIndices <= p.FullWidth()
            && (r < p.k ==> hashLen - c + 2 * lenIndices <= p.FullWidth())
            && (r == p.k ==> hashLen + 2 * lenIndices <= p.FinalFullWidth())
  {
    hide Pow, Span;
    SpanMonotone(p.CollisionBytes(), r - 1, p.k + 1);
    RoundWidths(p.CollisionBytes(), p.k, r);
  }

  lemma NextRow(c: nat, r: nat)
    requires r > 0
    ensures Span(c, r) == Span(c, r - 1) + c && Pow2(r) == 2 * Pow2(r - 1)
  {
  }

  /** A leaf fits in a row of the solver and in one of the verifier. */
  lemma LeafFits(p: Params)
    requires p.Admissible()
    ensures p.HashLength() + 4 <= p.FullWidth() <= p.FinalFullWidth()
  {
    hide Pow, Span;
    MergeWidths(p, 1);
    NoBlocks(p.CollisionBytes());
    NextRow(p.CollisionBytes(), p.k);
  }

  lemma NoBlocks(c: nat)
    ensures Span(c, 0) == 0 && Pow2(0) == 1
  {
  }

  lemma LevelWidths(c: nat, k: nat, h: nat)
    requires c <= 4 && h < k && Span(c, h) <= Span(c, k + 1)
    ensures var hashLen, lenIndices := Span(c, k + 1) - Span(c, h), 4 * Pow2(h);
            && hashLen + lenIndices <= 2 * c + 4 * Pow2(k)
            && c <= hashLen && hashLen - c + 2 * lenIndices <= 2 * c + 4 * Pow2(k)
  {
    hide Pow, Span;
    RowWidth(c, k, h, k);
    RowWidth(c, k, h + 1, k);
    TwoBlocks(c, k);
    NextRow(c, h + 1);
    SpanMonotone(c, h + 1, k + 1);
  }

  /** In the verifier every level's rows, and the rows merged from them, fit in FinalFullWidth. */
  lemma VerifierWidths(p: Params, h: nat)
    requires p.Admissible() && h < p.k
    ensures var c := p.CollisionBytes();
            Span(c, h) <= p.HashLength() &&
            var hashLen, lenIndices := p.HashLength() - Span(c, h), 4 * Pow2(h);
            && hashLen + lenIndices <= p.FinalFullWidth()
            && hashLen - c + 2 * lenIndices <= p.FinalFullWidth()
  {
    hide Pow, Span;
    SpanMonotone(p.CollisionBytes(), h, p.k + 1);
    LevelWidths(p.CollisionBytes(), p.k, h);
  }

  // ---------------------------------------------------------------- leaves

  /** `gen(g)` is the hash of the base state extended with the counter g. */
  ghost predicate Oracle(p: Params, gen: nat -> seq<byte>)
    requires p.n > 0
  {
    forall g :: |gen(g)| == p.HashOutput()
  }

  lemma SliceFits(n: nat, per: nat, j: nat)
    requires n % 8 == 0 && j < per
    ensures j * n / 8 == j * (n / 8) && j * n / 8 + n / 8 <= per * n / 8
  {
    var m := n / 8;
    assert n == 8 * m;
    assert j * n == 8 * (j * m) by { MulAssoc(j, 8, m); }
    assert per * n == 8 * (per * m) by { MulAssoc(per, 8, m); }
    MulMonotone(j + 1, per, m);
  }

  /** The part of a hash output that belongs to index i. */
  function LeafInput(p: Params, gen: nat -> seq<byte>, i: nat): (s: seq<byte>)
    requires p.Admissible() && Oracle(p, gen)
    ensures |s| == p.n / 8
  {
    var j := i % p.IndicesPerHashOutput();
    SliceFits(p.n, p.IndicesPerHashOutput(), j);
    DivNonNegative(i, p.IndicesPerHashOutput());
    gen(i / p.IndicesPerHashOutput())[j * p.n / 8..j * p.n / 8 + p.n / 8]
  }

  /** The bits of a hash make K + 1 blocks, and fewer bits than a block are left over. */
  lemma BlockCount(p: Params)
    requires p.Admissible()
    ensures p.CollisionBits() > 0 && p.n == p.CollisionBits() * (p.k + 1) + p.n % (p.k + 1)
    ensures p.n / p.CollisionBits() == p.k + 1 && 0 <= p.n % (p.k + 1) < p.CollisionBits()
  {
    var cb, r := p.CollisionBits(), p.n % (p.k + 1);
    DivModEquation(p.n, p.k + 1);
    MulMonotone(1, p.CollisionBytes(), r);
    DivModUnique(p.n, cb, p.k + 1, r);
  }

  lemma LeafBlocks(p: Params, packed: seq<byte>)
    requires p.Admissible() && |packed| == p.n / 8
    ensures p.CollisionBits() > 0
    ensures |Rebased(8, packed, p.CollisionBits())| == p.k + 1
    ensures |Table(p.CollisionBytes(), Rebased(8, packed, p.CollisionBits()))| == p.HashLength()
  {
    BlockCount(p);
    TableLength(p.CollisionBytes(), Rebased(8, packed, p.CollisionBits()));
  }

  ghost function LeafHash(p: Params, gen: nat -> seq<byte>, i: nat): (s: seq<byte>)
    requires p.Admissible() && Oracle(p, gen)
    ensures |s| == p.HashLength()
  {
    LeafBlocks(p, LeafInput(p, gen, i));
    Table(p.CollisionBytes(), Rebased(8, LeafInput(p, gen, i), p.CollisionBits()))
  }

  ghost function Leaves(p: Params, gen: nat -> seq<byte>): (leaf: nat -> seq<byte>)
    requires p.Admissible() && Oracle(p, gen)
    ensures Uniform(leaf, p.HashLength())
    ensures forall i :: leaf(i) == LeafHash(p, gen, i)
  {
    (i: nat) => LeafHash(p, gen, i)
  }

  lemma RoomForBlocks(b: nat, w: nat, blocks: nat, bytes: nat)
    requires b > 0 && Span(8, bytes) < Span(b, blocks + 1)
    ensures RoomForTable(b, w, bytes, Span(w, blocks))
  {
    hide Span;
    forall m: nat | Span(b, m) <= Span(8, bytes)
      ensures Span(w, m) <= Span(w, blocks)
    {
      SpanOrder(b, blocks + 1, m);
      SpanMonotone(w, if m < blocks then m else blocks, blocks);
    }
  }

  lemma BlockBits(p: Params, bytes: nat)
    requires p.Admissible() && bytes == p.n / 8
    ensures ElementSize(p.CollisionBits()) && ElementWidth(p.CollisionBits(), 0) == p.CollisionBytes()
    ensures Span(8, bytes) < Span(p.CollisionBits(), p.k + 2)
  {
    hide Span;
    BlockCount(p);
    SpanIsMul(8, bytes);
    SpanIsMul(p.CollisionBits(), p.k + 1);
    SpanStep(p.CollisionBits(), p.k + 1);
    assert p.n == 8 * bytes;
  }

  lemma ExpandsExactly(p: Params, packed: seq<byte>)
    requires p.Admissible() && |packed| == p.n / 8
    ensures ElementSize(p.CollisionBits()) && p.CollisionBits() > 0
    ensures ElementWidth(p.CollisionBits(), 0) == p.CollisionBytes()
    ensures RoomForTable(p.CollisionBits(), p.CollisionBytes(), |packed|, p.HashLength())
    ensures |Table(p.CollisionBytes(), Rebased(8, packed, p.CollisionBits()))| == p.HashLength()
  {
    hide Span, Table, Rebased, RoomForTable;
    LeafBlocks(p, packed);
    BlockBits(p, |packed|);
    RoomForBlocks(p.CollisionBits(), p.CollisionBytes(), p.k + 1, |packed|);
  }

  /** The leaf constructor: expanded hash followed by the index. */
  method LeafRow(p: Params, hashIn: seq<byte>, i: nat, width: nat) returns (row: seq<byte>)
    requires p.Admissible() && |hashIn| == p.n / 8 && i < WORD && p.HashLength() + INDEX_BYTES <= width
    ensures p.CollisionBits() > 0
    ensures row == Table(p.CollisionBytes(), Rebased(8, hashIn, p.CollisionBits())) + BytesOf(INDEX_BYTES, i)
  {
    hide *;
    ExpandsExactly(p, hashIn);
    var hash := new byte[p.HashLength()];
    ExpandArray(hashIn, hash, p.CollisionBits(), 0);
    row := hash[..] + BytesOf(INDEX_BYTES, i);
  }

  lemma LeafRowIsRow(p: Params, gen: nat -> seq<byte>, i: nat)
    requires p.Admissible() && Oracle(p, gen) && i < WORD
    ensures Span(p.CollisionBytes(), 0) <= p.HashLength() && p.CollisionBits() > 0
    ensures Row(Leaves(p, gen), p.HashLength(), p.CollisionBytes(), Leaf(i), 0)
         == Table(p.CollisionBytes(), Rebased(8, LeafInput(p, gen, i), p.CollisionBits())) + BytesOf(INDEX_BYTES, i)
  {
    hide Rebased, BytesOf, LeafInput, Pow;
    var leaf, len, c := Leaves(p, gen), p.HashLength(), p.CollisionBytes();
    assert Span(c, 0) == 0;
    assert RowHash(leaf, len, c, Leaf(i), 0) == leaf(i);
    assert leaf(i) == LeafHash(p, gen, i);
    SingleIndex(i);
  }

  lemma SingleIndex(i: nat)
    ensures Table(INDEX_BYTES, Indices(Leaf(i))) == BytesOf(INDEX_BYTES, i)
  {
    TableAppend(INDEX_BYTES, [], i);
    assert [] + [i] == [i];
  }

  // ---------------------------------------------------------------- minimal encoding

  /** An index list packed into IndexBits bits each. */
  ghost function Minimal(bits: nat, ids: seq<nat>): seq<byte>
  {
    PowWord();
    Rebased(bits, ids, 8)
  }

  /** The index list held by a packed string. */
  ghost function Unpacked(bits: nat, minimal: seq<byte>): (ids: seq<nat>)
    requires bits > 0
    ensures Proper(Pow2(bits), ids)
  {
    Rebased(8, minimal, bits)
  }

  lemma UnpackedMinimal(bits: nat, ids: seq<nat>)
    requires bits > 0 && Proper(Pow2(bits), ids) && bits * |ids| % 8 == 0
    ensures 8 * |Minimal(bits, ids)| == bits * |ids| && Unpacked(bits, Minimal(bits, ids)) == ids
  {
    RebasedInverse(bits, ids, 8);
  }

  lemma MinimalUnpacked(bits: nat, minimal: seq<byte>)
    requires bits > 0 && 8 * |minimal| % bits == 0
    ensures bits * |Unpacked(bits, minimal)| == 8 * |minimal| && Minimal(bits, Unpacked(bits, minimal)) == minimal
  {
    PowWord();
    RebasedInverse(8, minimal, bits);
  }

  /** The table of indices that is expanded holds whole indices. */
  lemma IndexTableLength(minimal: seq<byte>, bits: nat, lenIndices: nat)
    requires ElementSize(bits) && lenIndices == 8 * 4 * |minimal| / bits
    ensures ElementWidth(bits, 4 - (bits + 7) / 8) == 4
    ensures RoomForTable(bits, 4, |minimal|, lenIndices)
    ensures lenIndices % 4 == 0 ==>
      lenIndices == 4 * |Unpacked(bits, minimal)| == |Table(INDEX_BYTES, Unpacked(bits, minimal))|
    ensures Words(Unpacked(bits, minimal))
  {
    hide Table, Unpacked, RoomForTable, Span, Pow;
    UnpackedIs(bits, minimal);
    assert 8 * 4 * |minimal| == 4 * (8 * |minimal|);
    WholeIndices(8 * |minimal|, bits);
    AssertedTableLength(bits, 4, |minimal|, lenIndices);
    TableLength(INDEX_BYTES, Unpacked(bits, minimal));
    SpanIsMul(4, 8 * |minimal| / bits);
    ProperWords(bits, Unpacked(bits, minimal));
  }

  lemma WholeIndices(x: nat, bits: nat)
    requires bits > 0
    ensures 4 * x / bits % 4 == 0 ==> 4 * x / bits == 4 * (x / bits)
    ensures x % bits == 0 ==> 4 * x / bits % 4 == 0
  {
    var q, r := x / bits, x % bits;
    DivModEquation(x, bits);
    var t := Quarters(r, bits);
    DivModUnique(4 * x, bits, 4 * q + t, 4 * r - t * bits) by {
      Distributes(bits, 4 * q, t);
      MulAssoc(4, q, bits);
    }
  }

  lemma Quarters(r: nat, bits: nat) returns (t: nat)
    requires r < bits
    ensures t < 4 && 0 <= 4 * r - t * bits < bits && (r == 0 ==> t == 0)
  {
    t := if 4 * r < bits then 0 else if 4 * r < 2 * bits then 1 else if 4 * r < 3 * bits then 2 else 3;
  }

  lemma ProperWords(bits: nat, ids: seq<nat>)
    requires bits <= 32 && Proper(Pow2(bits), ids)
    ensures Words(ids)
  {
    PowWord();
    PowMonotone(2, bits, 32);
  }

  lemma StoredIndex(ids: seq<nat>, bytes: seq<byte>, i: nat)
    requires Words(ids) && bytes == Table(INDEX_BYTES, ids) && i % 4 == 0 && i < 4 * |ids|
    ensures |bytes| == 4 * |ids| && Number(8, bytes[i..i + 4]) == ids[i / 4]
  {
    hide Number, Table;
    IndexListOfTable(ids);
    assert bytes == bytes[0..0 + |bytes|];
    IndexAt(bytes, 0, |bytes|, i);
  }

  /** The indices in a packed string; a last one of which bytes are missing would be read beyond the end. */
  method GetIndicesFromMinimal(minimal: seq<byte>, cBitLen: nat) returns (ret: Option<seq<nat>>)
    requires ElementSize(cBitLen + 1)
    ensures ret == None <==> 8 * 4 * |minimal| / (cBitLen + 1) % 4 != 0
    ensures ret != None ==> ret == Some(Unpacked(cBitLen + 1, minimal))
  {
    hide Unpacked, Table, ElementWidth, Pow, RoomForTable, Number, Words;
    var lenIndices := 8 * 4 * |minimal| / (cBitLen + 1);
    var bytePad := 4 - ((cBitLen + 1) + 7) / 8;
    ghost var ids := Unpacked(cBitLen + 1, minimal);
    IndexTableLength(minimal, cBitLen + 1, lenIndices);
    var bytes := new byte[lenIndices];
    ExpandArray(minimal, bytes, cBitLen + 1, bytePad);
    if lenIndices % 4 != 0 {
      return None;
    }
    ghost var table := Table(INDEX_BYTES, ids);
    assert bytes[..] == table by { UnpackedIs(cBitLen + 1, minimal); }
    var indices := ReadIndices(bytes[..], ids);
    ret := Some(indices);
  }

  lemma UnpackedIs(bits: nat, minimal: seq<byte>)
    requires bits > 0
    ensures Unpacked(bits, minimal) == Rebased(8, minimal, bits)
  {
  }

  /** The loop of GetIndicesFromMinimal: one index every four bytes. */
  method ReadIndices(bytes: seq<byte>, ghost ids: seq<nat>) returns (ret: seq<nat>)
    requires Words(ids) && bytes == Table(INDEX_BYTES, ids) && |bytes| == 4 * |ids|
    ensures ret == ids
  {
    hide Table, Number;
    ret := [];
    var i := 0;
    while i < |bytes|
      invariant 0 <= i <= |bytes| && i % 4 == 0
      invariant ret == ids[..i / 4]
    {
      StoredIndex(ids, bytes, i);
      ret := ret + [Number(8, bytes[i..i + 4])];
      i := i + 4;
    }
  }

  lemma IndexPackedLength(n: nat, bits: nat, minLen: nat)
    requires ElementSize(bits) && minLen == bits * (n * 4) / (8 * 4)
    ensures ElementWidth(bits, 4 - (bits + 7) / 8) == 4
    ensures PackedLength(bits, 4, 4 * n, n, minLen)
  {
    AssertedPackedLength(bits, 4, n, minLen);
  }

  /** The low bits of every index. */
  function Masked(bits: nat, ids: seq<nat>): (r: seq<nat>)
    ensures |r| == |ids| && Proper(Pow2(bits), r)
  {
    if ids == [] then []
    else
      var n := |ids| - 1;
      LowShr(ids[n], bits);
      Masked(bits, ids[..n]) + [Low(ids[n], bits)]
  }

  lemma {:induction false} MaskedProper(bits: nat, ids: seq<nat>)
    requires Proper(Pow2(bits), ids)
    ensures Masked(bits, ids) == ids
  {
    if ids != [] {
      var n := |ids| - 1;
      MaskedProper(bits, ids[..n]);
      LowSmall(ids[n], bits);
    }
  }

  /** The elements of a table of indices are the low bits of the indices. */
  lemma {:induction false} TableOfMasked(bits: nat, ids: seq<nat>)
    requires bits <= 32
    ensures TableElements(bits, INDEX_BYTES, Table(INDEX_BYTES, ids)) == Masked(bits, ids)
  {
    hide Pow, Cut, BytesOf, Number, Low;
    if ids != [] {
      var n := |ids| - 1;
      TableOfMasked(bits, ids[..n]);
      TableElementsAppend(bits, INDEX_BYTES, Table(INDEX_BYTES, ids[..n]), BytesOf(INDEX_BYTES, ids[n]));
      LowOfBytes(bits, ids[n]);
    }
  }

  lemma LowOfBytes(bits: nat, e: nat)
    requires bits <= 32
    ensures Low(Number(8, BytesOf(INDEX_BYTES, e)), bits) == Low(e, bits)
  {
    SpanIsMul(8, INDEX_BYTES);
    NumberOfCut(8, INDEX_BYTES, e);
    LowLow(e, 32, bits);
  }

  /** Indices stored in a row, packed: the part of GetMinimalFromIndices and GetIndices they share. */
  method PackIndexBytes(bytes: seq<byte>, cBitLen: nat, ghost ids: seq<nat>) returns (ret: seq<byte>)
    requires ElementSize(cBitLen + 1) && bytes == Table(INDEX_BYTES, ids) && |bytes| == 4 * |ids|
    ensures ret == Minimal(cBitLen + 1, Masked(cBitLen + 1, ids))
  {
    hide Table, TableElements, Rebased, PackedLength, ElementWidth, Proper, Pow, Masked;
    var minLen := (cBitLen + 1) * |bytes| / (8 * 4);
    var bytePad := 4 - ((cBitLen + 1) + 7) / 8;
    DivNonNegative((cBitLen + 1) * |bytes|, 32);
    IndexPackedLength(|ids|, cBitLen + 1, minLen);
    var out := new byte[minLen];
    CompressArray(bytes, out, cBitLen + 1, bytePad, |ids|);
    SpanIsMul(4, |ids|);
    assert bytes[..Span(4, |ids|)] == bytes;
    TableOfMasked(cBitLen + 1, ids);
    ret := out[..];
  }

  /** The loop of GetMinimalFromIndices: four big-endian bytes per index. */
  method WriteIndices(indices: seq<nat>) returns (bytes: seq<byte>)
    ensures bytes == Table(INDEX_BYTES, indices)
  {
    hide BytesOf;
    bytes := [];
    for i := 0 to |indices|
      invariant bytes == Table(INDEX_BYTES, indices[..i])
    {
      TableAppend(INDEX_BYTES, indices[..i], indices[i]);
      assert indices[..i + 1] == indices[..i] + [indices[i]];
      bytes := bytes + BytesOf(INDEX_BYTES, indices[i]);
    }
    assert indices[..|indices|] == indices;
  }

  method GetMinimalFromIndices(indices: seq<nat>, cBitLen: nat) returns (ret: seq<byte>)
    requires ElementSize(cBitLen + 1)
    ensures ret == Minimal(cBitLen + 1, Masked(cBitLen + 1, indices))
    ensures Proper(Pow2(cBitLen + 1), indices) ==> ret == Minimal(cBitLen + 1, indices)
  {
    hide Table, Pow, Minimal, Proper, IndexList, Words, Masked;
    if Proper(Pow2(cBitLen + 1), indices) {
      MaskedProper(cBitLen + 1, indices);
    }
    var bytes := WriteIndices(indices);
    TableBytesLength(indices);
    ret := PackIndexBytes(bytes, cBitLen, indices);
  }

  lemma TableBytesLength(ids: seq<nat>)
    ensures |Table(INDEX_BYTES, ids)| == 4 * |ids|
  {
    TableLength(INDEX_BYTES, ids);
    SpanIsMul(INDEX_BYTES, |ids|);
  }

  // ---------------------------------------------------------------- solutions

  /** What a packed solution of these parameters is. */
  ghost predicate IsSolution(p: Params, gen: nat -> seq<byte>, soln: seq<byte>)
    requires p.Admissible() && Oracle(p, gen)
  {
    && |soln| == p.SolutionWidth()
    && Solution(Leaves(p, gen), p.HashLength(), p.CollisionBytes(), p.k, Unpacked(p.IndexBits(), soln))
  }

  lemma SolutionSize(p: Params, soln: seq<byte>)
    requires p.Admissible() && |soln| == p.SolutionWidth()
    ensures ElementSize(p.IndexBits()) && 8 * |soln| % p.IndexBits() == 0
    ensures 8 * 4 * |soln| / p.IndexBits() % 4 == 0
    ensures |Unpacked(p.IndexBits(), soln)| == Pow2(p.k) && Words(Unpacked(p.IndexBits(), soln))
    ensures Minimal(p.IndexBits(), Unpacked(p.IndexBits(), soln)) == soln
  {
    var b := p.IndexBits();
    WholeSolution(p);
    DivModUnique(8 * |soln|, b, Pow2(p.k), 0);
    ProperWords(b, Unpacked(b, soln));
    MinimalUnpacked(b, soln);
    WholeIndices(8 * |soln|, b);
  }

  lemma WholeSolution(p: Params)
    requires p.Admissible()
    ensures 8 * p.SolutionWidth() == Pow2(p.k) * p.IndexBits() == p.IndexBits() * Pow2(p.k)
  {
  }

  lemma EightTimes(k: nat, b: nat)
    requires k >= 3
    ensures Pow2(k) * b % 8 == 0
  {
    var m := Pow2(k - 3);
    PowAdd(2, 3, k - 3);
    assert Pow2(3) == 8;
    EightDivides(m, b);
  }

  lemma EightDivides(m: nat, b: nat)
    ensures 8 * m * b % 8 == 0
  {
    MulAssoc(8, m, b);
  }

  lemma MinimalSize(p: Params, ids: seq<nat>)
    requires p.Admissible() && |ids| == Pow2(p.k) && Proper(Pow2(p.IndexBits()), ids)
    ensures |Minimal(p.IndexBits(), ids)| == p.SolutionWidth()
    ensures Unpacked(p.IndexBits(), Minimal(p.IndexBits(), ids)) == ids
  {
    WholeSolution(p);
    UnpackedMinimal(p.IndexBits(), ids);
  }
}
