/**
ExpandArray and CompressArray: streaming conversion between a packed bit string
and a table of fixed-width big-endian elements, through a 32-bit accumulator.
Both are proved to cut one and the same bit string, read as a number, into digits
of another size, which makes them inverse to each other.
*/
module BitPacking {
  import opened Numbers
  import opened Bits

  // ---------------------------------------------------------------- bit strings as numbers

  /** The number whose base-2^k digits are `ds`, most significant first. */
  function Number(k: nat, ds: seq<nat>): nat
  {
    if ds == [] then 0 else Shl(Number(k, ds[..|ds| - 1]), k) + ds[|ds| - 1]
  }

  /** The `n` low-order base-2^k digits of `v`. */
  function Cut(k: nat, n: nat, v: nat): (ds: seq<nat>)
    ensures |ds| == n && Proper(Pow2(k), ds)
    decreases n
  {
    if n == 0 then [] else (LowShr(v, k); Cut(k, n - 1, Shr(v, k)) + [Low(v, k)])
  }

  lemma NumberAppend(k: nat, ds: seq<nat>, d: nat)
    ensures Number(k, ds + [d]) == Shl(Number(k, ds), k) + d
  {
    assert (ds + [d])[..|ds|] == ds;
  }

  lemma {:induction false} CutOfNumber(k: nat, ds: seq<nat>)
    requires Proper(Pow2(k), ds)
    ensures Cut(k, |ds|, Number(k, ds)) == ds
  {
    if ds != [] {
      var n := |ds| - 1;
      ShrLowOfShl(Number(k, ds[..n]), k, ds[n]);
      CutOfNumber(k, ds[..n]);
    }
  }

  lemma {:induction false} NumberOfCut(k: nat, n: nat, v: nat)
    ensures Number(k, Cut(k, n, v)) == Low(v, Span(k, n))
    decreases n
  {
    if n > 0 {
      NumberOfCut(k, n - 1, Shr(v, k));
      NumberAppend(k, Cut(k, n - 1, Shr(v, k)), Low(v, k));
      LowSplit(v, k, Span(k, n - 1));
    }
  }

  lemma NumberBound(k: nat, ds: seq<nat>)
    requires Proper(Pow2(k), ds)
    ensures Number(k, ds) < Pow2(Span(k, |ds|))
  {
    CutOfNumber(k, ds);
    NumberOfCut(k, |ds|, Number(k, ds));
    LowShr(Number(k, ds), Span(k, |ds|));
  }

  lemma {:induction false} DigitAt(k: nat, n: nat, v: nat, x: nat)
    requires x < n
    ensures Cut(k, n, v)[x] == Low(Shr(v, Span(k, n - 1 - x)), k)
    decreases n
  {
    if x < n - 1 {
      DigitAt(k, n - 1, Shr(v, k), x);
      ShrShr(v, k, Span(k, n - 2 - x));
    }
  }

  /**
  A string of `rb`-bit digits read as one long bit string and cut into `wb`-bit
  digits from the front; leftover bits are dropped.
  */
  ghost function Rebased(rb: nat, ds: seq<nat>, wb: nat): (es: seq<nat>)
    requires wb > 0
    ensures Proper(Pow2(wb), es) && |es| == rb * |ds| / wb
  {
    DivNonNegative(rb * |ds|, wb);
    Cut(wb, rb * |ds| / wb, Shr(Number(rb, ds), rb * |ds| % wb))
  }

  /** Re-cutting a string whose bits divide evenly loses nothing: cutting back returns it. */
  lemma RebasedInverse(rb: nat, ds: seq<nat>, wb: nat)
    requires rb > 0 && wb > 0 && Proper(Pow2(rb), ds) && rb * |ds| % wb == 0
    ensures wb * |Rebased(rb, ds, wb)| == rb * |ds|
    ensures Rebased(wb, Rebased(rb, ds, wb), rb) == ds
  {
    var n := rb * |ds| / wb;
    var es := Rebased(rb, ds, wb);
    DivModEquation(rb * |ds|, wb);
    NumberOfCut(wb, n, Number(rb, ds));
    NumberBound(rb, ds);
    SpanIsMul(rb, |ds|);
    SpanIsMul(wb, n);
    LowSmall(Number(rb, ds), rb * |ds|);
    DivModUnique(wb * |es|, rb, |ds|, 0);
    CutOfNumber(rb, ds);
  }

  // ---------------------------------------------------------------- tables of elements

  function ElementWidth(bitLen: nat, bytePad: nat): nat
  {
    (bitLen + 7) / 8 + bytePad
  }

  /** What both routines assert about the element size before they start. */
  predicate ElementSize(bitLen: nat)
  {
    8 <= bitLen && 7 + bitLen <= 32
  }

  lemma PowWord()
    ensures Pow2(8) == 256 && Pow2(24) == 0x1000000 && Pow2(32) == WORD
  {
    assert Pow2(8) == 256;
    PowAdd(2, 8, 8);
    PowAdd(2, 16, 8);
    PowAdd(2, 24, 8);
  }

  function BytesOf(w: nat, e: nat): (bs: seq<byte>)
    ensures |bs| == w
  {
    PowWord();
    Cut(8, w, e)
  }

  /** Every element as `w` big-endian bytes, one after the other. */
  ghost function Table(w: nat, es: seq<nat>): seq<byte>
  {
    if es == [] then [] else Table(w, es[..|es| - 1]) + BytesOf(w, es[|es| - 1])
  }

  lemma TableAppend(w: nat, es: seq<nat>, e: nat)
    ensures Table(w, es + [e]) == Table(w, es) + BytesOf(w, e)
  {
    assert (es + [e])[..|es|] == es;
  }

  lemma {:induction false} TableLength(w: nat, es: seq<nat>)
    ensures |Table(w, es)| == Span(w, |es|)
  {
    if es != [] {
      TableLength(w, es[..|es| - 1]);
    }
  }

  /** The low `bitLen` bits of every `w`-byte element of a table. */
  ghost function TableElements(bitLen: nat, w: nat, table: seq<byte>): (es: seq<nat>)
    ensures Proper(Pow2(bitLen), es)
  {
    if w == 0 || |table| < w then []
    else
      var e := Number(8, table[|table| - w..]);
      LowShr(e, bitLen);
      TableElements(bitLen, w, table[..|table| - w]) + [Low(e, bitLen)]
  }

  lemma TableElementsAppend(bitLen: nat, w: nat, table: seq<byte>, row: seq<byte>)
    requires |row| == w > 0
    ensures TableElements(bitLen, w, table + row)
         == TableElements(bitLen, w, table) + [Low(Number(8, row), bitLen)]
  {
    assert (table + row)[|table|..] == row;
    assert (table + row)[..|table|] == table;
  }

  lemma {:induction false} TableElementsLength(bitLen: nat, w: nat, table: seq<byte>)
    requires w > 0 && |table| % w == 0
    ensures w * |TableElements(bitLen, w, table)| == |table|
  {
    DivModEquation(|table|, w);
    var n := |table| / w;
    if |table| < w {
      DivModSmall(|table|, w);
    } else {
      MulStep(w, n);
      DivModUnique(|table| - w, w, n - 1, 0);
      TableElementsLength(bitLen, w, table[..|table| - w]);
      var k := |TableElements(bitLen, w, table[..|table| - w])|;
      MulStep(w, k + 1);
    }
  }

  lemma ElementRoundTrip(bitLen: nat, w: nat, e: nat)
    requires bitLen <= 8 * w && e < Pow2(bitLen)
    ensures Number(8, BytesOf(w, e)) == e && Low(e, bitLen) == e
  {
    PowMonotone(2, bitLen, 8 * w);
    SpanIsMul(8, w);
    NumberOfCut(8, w, e);
    LowSmall(e, 8 * w);
    LowSmall(e, bitLen);
  }

  /** Reading back a table of elements that fit returns the elements. */
  lemma {:induction false} TableRoundTrip(bitLen: nat, w: nat, es: seq<nat>)
    requires w > 0 && bitLen <= 8 * w && Proper(Pow2(bitLen), es)
    ensures TableElements(bitLen, w, Table(w, es)) == es
  {
    hide Pow, Cut, BytesOf, Number, Low;
    if es != [] {
      var n := |es| - 1;
      TableRoundTrip(bitLen, w, es[..n]);
      TableElementsAppend(bitLen, w, Table(w, es[..n]), BytesOf(w, es[n]));
      ElementRoundTrip(bitLen, w, es[n]);
      assert es == es[..n] + [es[n]];
    }
  }

  // ---------------------------------------------------------------- one byte

  lemma ByteAt(w: nat, v: nat, x: nat)
    requires x < w
    ensures BytesOf(w, v)[x] == Low(Shr(v, 8 * (w - 1 - x)), 8)
  {
    SpanIsMul(8, w - 1 - x);
    DigitAt(8, w, v, x);
  }

  lemma ByteMask(m: nat)
    ensures Pow2(m) > 0 && Pow2(8) == 256
    ensures And(Pow2(m) - 1, 0xFF) == Pow2(if m < 8 then m else 8) - 1
  {
    hide Low, Shr, Shl, And;
    PowPositive(2, m);
    PowWord();
    AndMask(Pow2(m) - 1, 8);
    if m < 8 {
      PowMonotone(2, m, 8);
      LowSmall(Pow2(m) - 1, 8);
    } else {
      PowPositive(2, m - 8);
      PowAdd(2, m - 8, 8);
      ShlIsMul(Pow2(m - 8) - 1, 8);
      ShrLowOfShl(Pow2(m - 8) - 1, 8, 255);
    }
  }

  lemma MaskWithByte(y: nat, m: nat)
    ensures Pow2(m) > 0 && And(y, And(Pow2(m) - 1, 0xFF)) == Low(Low(y, m), 8)
  {
    ByteMask(m);
    AndMask(y, if m < 8 then m else 8);
    LowLow(y, m, 8);
  }

  /** The mask byte at bit offset `s` of an element keeps the bits that are still inside it. */
  lemma MaskByte(y: nat, bitLen: nat, s: nat)
    requires s <= bitLen
    ensures Pow2(bitLen) > 0
    ensures And(y, And(Shr(Pow2(bitLen) - 1, s), 0xFF)) == Low(Low(y, bitLen - s), 8)
  {
    hide *;
    ShiftedMask(bitLen, s);
    MaskWithByte(y, bitLen - s);
  }

  /** One output byte of ExpandArray is one base-256 digit of the element being written. */
  lemma ExpandedByte(acc: nat, accBits: nat, bitLen: nat, w: nat, x: nat)
    requires x < w && 8 * (w - x - 1) <= bitLen
    ensures Pow2(bitLen) > 0
    ensures And(Shr(acc, accBits + 8 * (w - x - 1)), And(Shr(Pow2(bitLen) - 1, 8 * (w - x - 1)), 0xFF))
         == BytesOf(w, Low(Shr(acc, accBits), bitLen))[x]
  {
    hide *;
    var s := 8 * (w - x - 1);
    MaskByte(Shr(acc, accBits + s), bitLen, s);
    ShrShr(acc, accBits, s);
    ShrLow(Shr(acc, accBits), s, bitLen - s);
    ByteAt(w, Low(Shr(acc, accBits), bitLen), x);
  }

  lemma PadByte(bitLen: nat, bytePad: nat, e: nat, x: nat)
    requires e < Pow2(bitLen) && x < bytePad
    ensures BytesOf(ElementWidth(bitLen, bytePad), e)[x] == 0
  {
    hide Low, Shr, Pow, BytesOf, Cut;
    var w := ElementWidth(bitLen, bytePad);
    ByteAt(w, e, x);
    PowMonotone(2, bitLen, 8 * (w - 1 - x));
    LowSmall(e, 8 * (w - 1 - x));
    PowPositive(2, 8);
    LowSmall(0, 8);
  }

  lemma RowByte(row: seq<byte>, x: nat)
    requires x < |row|
    ensures row[x] == Low(Shr(Number(8, row), 8 * (|row| - x - 1)), 8)
  {
    PowWord();
    CutOfNumber(8, row);
    ByteAt(|row|, Number(8, row), x);
  }

  lemma MaskedTwice(y: nat, m: nat)
    ensures Low(Low(Low(y, 8), m), 8) == Low(Low(y, m), 8)
  {
    LowLow(y, 8, m);
    LowLow(y, m, 8);
    LowLow(y, if m < 8 then m else 8, 8);
  }

  /** A masked input byte of CompressArray is one base-256 digit of the masked element. */
  lemma CompressedByte(row: seq<byte>, bitLen: nat, x: nat)
    requires x < |row| && 8 * (|row| - x - 1) <= bitLen
    ensures Pow2(bitLen) > 0
    ensures And(row[x], And(Shr(Pow2(bitLen) - 1, 8 * (|row| - x - 1)), 0xFF))
         == Low(Shr(Low(Number(8, row), bitLen), 8 * (|row| - x - 1)), 8)
  {
    hide *;
    var s := 8 * (|row| - x - 1);
    var v := Number(8, row);
    RowByte(row, x);
    MaskByte(row[x], bitLen, s);
    ShrLow(v, s, bitLen - s);
    MaskedTwice(Shr(v, s), bitLen - s);
  }

  // ---------------------------------------------------------------- the stream

  /** What the accumulator and the written digits say together: the digits read so far. */
  ghost predicate Streamed(rb: nat, read: seq<nat>, wb: nat, written: seq<nat>, accBits: nat, acc: nat)
  {
    && Number(rb, read) == Shl(Number(wb, written), accBits) + Low(acc, accBits)
    && Span(rb, |read|) == Span(wb, |written|) + accBits
    && Proper(Pow2(wb), written)
  }

  lemma StreamStart(rb: nat, wb: nat, w: nat)
    ensures Streamed(rb, [], wb, [], 0, 0) && Table(w, []) == []
    ensures TableElements(rb, w, []) == [] && Span(w, 0) == 0
  {
  }

  /** Shifting a digit in keeps every unread bit as long as the unread bits fit in 32. */
  lemma ShiftIn(acc: nat, accBits: nat, k: nat, d: nat)
    requires accBits + k <= 32 && d < Pow2(k)
    ensures Low(Low(Shl(acc, k), 32) + d, accBits + k) == Shl(Low(acc, accBits), k) + d
    ensures Low(Shl(acc, k), 32) + d < WORD
    ensures Low(Shl(acc, k), 32) == Shl(Low(acc, 32 - k), k)
  {
    hide *;
    var y := Low(acc, 32 - k);
    LowOfShl(acc, k, 32 - k);
    ShiftedBound(acc, k, d);
    LowSplit(Shl(y, k) + d, k, accBits);
    ShrLowOfShl(y, k, d);
    LowLow(acc, 32 - k, accBits);
  }

  lemma ShiftedBound(acc: nat, k: nat, d: nat)
    requires k <= 32 && d < Pow2(k)
    ensures Shl(Low(acc, 32 - k), k) + d < WORD
  {
    PowWord();
    LowShr(acc, 32 - k);
    ShlMonotone(Low(acc, 32 - k) + 1, Pow2(32 - k), k);
    ShlAdd(Low(acc, 32 - k), 1, k);
    ShlPow(0, k);
    ShlPow(32 - k, k);
  }

  lemma ReadDigit(rb: nat, read: seq<nat>, wb: nat, written: seq<nat>, accBits: nat, acc: nat, d: nat)
    requires Streamed(rb, read, wb, written, accBits, acc)
    requires accBits + rb <= 32 && d < Pow2(rb)
    ensures Streamed(rb, read + [d], wb, written, accBits + rb, Low(Shl(acc, rb), 32) + d)
  {
    hide Shl, Low, Number, Pow, Proper;
    var v, low := Number(wb, written), Low(acc, accBits);
    ShiftIn(acc, accBits, rb, d);
    NumberAppend(rb, read, d);
    ShlAdd(Shl(v, accBits), low, rb);
    ShlShl(v, accBits, rb);
  }

  lemma WriteDigit(rb: nat, read: seq<nat>, wb: nat, written: seq<nat>, rest: nat, acc: nat)
    requires Streamed(rb, read, wb, written, rest + wb, acc)
    ensures Streamed(rb, read, wb, written + [Low(Shr(acc, rest), wb)], rest, acc)
  {
    hide Shl, Shr, Low, Number, Pow;
    var v, e := Number(wb, written), Low(Shr(acc, rest), wb);
    LowSplit(acc, rest, wb);
    LowShr(Shr(acc, rest), wb);
    NumberAppend(wb, written, e);
    ShlShl(v, wb, rest);
    ShlAdd(Shl(v, wb), e, rest);
  }

  /** Once fewer than `wb` bits are left over, the digits written are the leading digits of the number read. */
  lemma StreamEnd(rb: nat, read: seq<nat>, wb: nat, written: seq<nat>, accBits: nat, acc: nat)
    requires Streamed(rb, read, wb, written, accBits, acc) && accBits < wb
    ensures written == Rebased(rb, read, wb)
  {
    hide Shl, Shr, Low, Number, Pow, Span, Cut;
    LowShr(acc, accBits);
    SpanIsMul(rb, |read|);
    SpanIsMul(wb, |written|);
    DivModUnique(rb * |read|, wb, |written|, accBits);
    ShrLowOfShl(Number(wb, written), accBits, Low(acc, accBits));
    CutOfNumber(wb, written);
  }

  // ---------------------------------------------------------------- ExpandArray

  lemma WidthFacts(bitLen: nat, bytePad: nat)
    requires ElementSize(bitLen)
    ensures 8 <= bitLen <= 25 && Pow2(bitLen) > 0 && 0 < WORD
    ensures bytePad < ElementWidth(bitLen, bytePad)
    ensures 8 * (ElementWidth(bitLen, bytePad) - bytePad - 1) < bitLen <= 8 * (ElementWidth(bitLen, bytePad) - bytePad)
  {
    PowPositive(2, bitLen);
  }

  lemma PaddedDigits(e: nat, accValue: nat, accBits: nat, bitLen: nat, bytePad: nat) returns (digits: seq<byte>)
    requires e == Low(Shr(accValue, accBits), bitLen)
    ensures digits == BytesOf(ElementWidth(bitLen, bytePad), e)
    ensures |digits| == ElementWidth(bitLen, bytePad) >= bytePad
    ensures forall x :: 0 <= x < bytePad ==> digits[x] == 0
  {
    digits := BytesOf(ElementWidth(bitLen, bytePad), e);
    LowShr(Shr(accValue, accBits), bitLen);
    forall x | 0 <= x < bytePad ensures digits[x] == 0 {
      PadByte(bitLen, bytePad, e, x);
    }
  }

  /** The two inner loops of ExpandArray: one element, padding first. */
  method EmitElement(out: array<byte>, j: nat, accValue: nat, accBits: nat, bitLen: nat, bytePad: nat)
    requires ElementSize(bitLen) && accBits < 8 && accValue < WORD
    requires j + ElementWidth(bitLen, bytePad) <= out.Length
    modifies out
    ensures out[..] == old(out[..j])
                       + BytesOf(ElementWidth(bitLen, bytePad), Low(Shr(accValue, accBits), bitLen))
                       + old(out[j + ElementWidth(bitLen, bytePad)..])
  {
    hide *;
    WidthFacts(bitLen, bytePad);
    ghost var digits := PaddedDigits(Low(Shr(accValue, accBits), bitLen), accValue, accBits, bitLen, bytePad);
    var outWidth := ElementWidth(bitLen, bytePad);
    var mask := Pow2(bitLen) - 1;
    for x := 0 to bytePad
      invariant forall y :: 0 <= y < out.Length ==> out[y] == if j <= y < j + x then digits[y - j] else old(out[y])
    {
      out[j + x] := 0;
    }
    for x := bytePad to outWidth
      invariant forall y :: 0 <= y < out.Length ==> out[y] == if j <= y < j + x then digits[y - j] else old(out[y])
    {
      var s := 8 * (outWidth - x - 1);
      assert accBits + s < 32;
      ExpandedByte(accValue, accBits, bitLen, outWidth, x);
      out[j + x] := And(Shr(accValue, accBits + s), And(Shr(mask, s), 0xFF));
    }
  }

  /** The output has room for every element the input can hold. */
  ghost predicate RoomForTable(bitLen: nat, w: nat, inLen: nat, outLen: nat)
  {
    forall n: nat :: Span(bitLen, n) <= Span(8, inLen) ==> Span(w, n) <= outLen
  }

  lemma TableBytes(bitLen: nat, w: nat, inLen: nat, n: nat)
    requires bitLen > 0 && bitLen * n <= 8 * inLen
    ensures w * n <= 8 * w * inLen / bitLen
  {
    MulMonotone(bitLen * n, 8 * inLen, w);
    MulAssoc(w, n, bitLen);
    DivAtLeast(8 * w * inLen, bitLen, w * n);
  }

  /** The output length that ExpandArray asserts leaves room for the table. */
  lemma AssertedTableLength(bitLen: nat, w: nat, inLen: nat, outLen: nat)
    requires bitLen > 0 && outLen == 8 * w * inLen / bitLen
    ensures RoomForTable(bitLen, w, inLen, outLen)
  {
    forall n: nat | Span(bitLen, n) <= Span(8, inLen)
      ensures Span(w, n) <= outLen
    {
      SpanIsMul(bitLen, n);
      SpanIsMul(8, inLen);
      SpanIsMul(w, n);
      TableBytes(bitLen, w, inLen, n);
    }
  }

  lemma AbsorbByte(input: seq<byte>, i: nat, bitLen: nat, es: seq<nat>, accBits: nat, acc: nat)
    requires i < |input| && accBits + 8 <= 32
    requires Streamed(8, input[..i], bitLen, es, accBits, acc)
    ensures Streamed(8, input[..i + 1], bitLen, es, accBits + 8, Or(Low(Shl(acc, 8), 32), input[i]))
    ensures Or(Low(Shl(acc, 8), 32), input[i]) < WORD
  {
    PowWord();
    assert input[..i + 1] == input[..i] + [input[i]];
    ReadDigit(8, input[..i], bitLen, es, accBits, acc, input[i]);
    ShiftIn(acc, accBits, 8, input[i]);
    OrDisjoint(Low(acc, 24), input[i], 8);
  }

  lemma CompleteElement(
      input: seq<byte>, i: nat, bitLen: nat, es: seq<nat>, accBits: nat, acc: nat, w: nat, outLen: nat)
    returns (es': seq<nat>)
    requires bitLen <= accBits && i <= |input|
    requires RoomForTable(bitLen, w, |input|, outLen)
    requires Streamed(8, input[..i], bitLen, es, accBits, acc)
    ensures Streamed(8, input[..i], bitLen, es', accBits - bitLen, acc)
    ensures Table(w, es') == Table(w, es) + BytesOf(w, Low(Shr(acc, accBits - bitLen), bitLen))
    ensures |Table(w, es')| <= outLen
  {
    var e := Low(Shr(acc, accBits - bitLen), bitLen);
    es' := es + [e];
    WriteDigit(8, input[..i], bitLen, es, accBits - bitLen, acc);
    TableAppend(w, es, e);
    SpanMonotone(8, i, |input|);
    TableLength(w, es');
    assert Span(bitLen, |es'|) <= Span(8, |input|);
  }

  /** With `bitLen` or more unread bits, write the next output element. */
  method Drain(input: seq<byte>, i: nat, out: array<byte>, j: nat, bitLen: nat, bytePad: nat,
               accBits: nat, accValue: nat, ghost es: seq<nat>)
    returns (j': nat, accBits': nat, ghost es': seq<nat>)
    requires ElementSize(bitLen) && accBits < bitLen + 8 && accValue < WORD && i <= |input|
    requires RoomForTable(bitLen, ElementWidth(bitLen, bytePad), |input|, out.Length)
    requires j <= out.Length && out[..j] == Table(ElementWidth(bitLen, bytePad), es)
    requires Streamed(8, input[..i], bitLen, es, accBits, accValue)
    modifies out
    ensures accBits' < bitLen
    ensures j' <= out.Length && out[..j'] == Table(ElementWidth(bitLen, bytePad), es')
    ensures Streamed(8, input[..i], bitLen, es', accBits', accValue)
  {
    hide *;
    if accBits < bitLen {
      return j, accBits, es;
    }
    WidthFacts(bitLen, bytePad);
    es' := CompleteElement(input, i, bitLen, es, accBits, accValue, ElementWidth(bitLen, bytePad), out.Length);
    accBits' := accBits - bitLen;
    ghost var before := out[..j];
    EmitElement(out, j, accValue, accBits', bitLen, bytePad);
    j' := j + ElementWidth(bitLen, bytePad);
    assert out[..j'] == before + BytesOf(ElementWidth(bitLen, bytePad), Low(Shr(accValue, accBits'), bitLen));
  }

  method ExpandArray(input: seq<byte>, out: array<byte>, bitLen: nat, bytePad: nat)
    requires ElementSize(bitLen)
    requires RoomForTable(bitLen, ElementWidth(bitLen, bytePad), |input|, out.Length)
    modifies out
    ensures Table(ElementWidth(bitLen, bytePad), Rebased(8, input, bitLen)) <= out[..]
  {
    hide *;
    WidthFacts(bitLen, bytePad);
    StreamStart(8, bitLen, ElementWidth(bitLen, bytePad));
    var accBits: nat, accValue: nat := 0, 0;
    var j: nat := 0;
    ghost var es: seq<nat> := [];
    assert input[..0] == [] && out[..0] == [];
    for i := 0 to |input|
      invariant accBits < bitLen && accValue < WORD
      invariant Streamed(8, input[..i], bitLen, es, accBits, accValue)
      invariant j <= out.Length && out[..j] == Table(ElementWidth(bitLen, bytePad), es)
    {
      AbsorbByte(input, i, bitLen, es, accBits, accValue);
      accValue := Or(Low(Shl(accValue, 8), 32), input[i]);
      accBits := accBits + 8;
      j, accBits, es := Drain(input, i + 1, out, j, bitLen, bytePad, accBits, accValue, es);
    }
    assert input[..|input|] == input;
    StreamEnd(8, input, bitLen, es, accBits, accValue);
  }

  // ---------------------------------------------------------------- CompressArray

  lemma PlacedSum(e: nat, s: nat)
    ensures Shl(Shr(e, s), s) == Shl(Shr(e, s + 8), s + 8) + Shl(Low(Shr(e, s), 8), s)
  {
    var y := Shr(e, s);
    ShrShr(e, s, 8);
    LowShr(y, 8);
    ShlAdd(Shl(Shr(y, 8), 8), Low(y, 8), s);
    ShlShl(Shr(y, 8), 8, s);
  }

  lemma ShlByteBound(d: nat, s: nat)
    requires d < 256
    ensures Shl(d, s) < Pow2(s + 8)
  {
    PowWord();
    ShlMonotone(d + 1, 256, s);
    ShlAdd(d, 1, s);
    ShlPow(0, s);
    ShlPow(8, s);
    PowPositive(2, s);
  }

  /** Or-ing the byte at bit offset `s` in below the bytes already placed adds it. */
  lemma PlaceByte(y: nat, bitLen: nat, e: nat, s: nat)
    requires e < Pow2(bitLen) && s <= bitLen
    ensures Or(Shl(y, bitLen) + Shl(Shr(e, s + 8), s + 8), Shl(Low(Shr(e, s), 8), s))
         == Shl(y, bitLen) + Shl(Shr(e, s), s)
  {
    PlacedSum(e, s);
    if s + 8 <= bitLen {
      PowWord();
      LowShr(Shr(e, s), 8);
      PlaceLowerByte(y, bitLen, Shr(e, s + 8), Low(Shr(e, s), 8), s);
    } else {
      PowMonotone(2, bitLen, s + 8);
      LowSmall(e, s + 8);
      ShlOfZero(s + 8);
      LowShr(e, s);
      OrDisjoint(y, Shl(Low(Shr(e, s), 8), s), bitLen);
    }
  }

  lemma PlaceLowerByte(y: nat, bitLen: nat, high: nat, d: nat, s: nat)
    requires s + 8 <= bitLen && d < 256
    ensures Or(Shl(y, bitLen) + Shl(high, s + 8), Shl(d, s)) == Shl(y, bitLen) + Shl(high, s + 8) + Shl(d, s)
  {
    var t := s + 8;
    ShlShl(y, bitLen - t, t);
    ShlAdd(Shl(y, bitLen - t), high, t);
    ShlByteBound(d, s);
    OrDisjoint(Shl(y, bitLen - t) + high, Shl(d, s), t);
  }

  lemma PlaceRowByte(row: seq<byte>, bitLen: nat, y: nat, x: nat)
    requires x < |row| && 8 * (|row| - x - 1) <= bitLen
    ensures Pow2(bitLen) > 0
    ensures var s := 8 * (|row| - x - 1);
            var e := Low(Number(8, row), bitLen);
            Or(Shl(y, bitLen) + Shl(Shr(e, s + 8), s + 8), Shl(And(row[x], And(Shr(Pow2(bitLen) - 1, s), 0xFF)), s))
            == Shl(y, bitLen) + Shl(Shr(e, s), s)
  {
    CompressedByte(row, bitLen, x);
    LowShr(Number(8, row), bitLen);
    PlaceByte(y, bitLen, Low(Number(8, row), bitLen), 8 * (|row| - x - 1));
  }

  lemma NoneYet(bitLen: nat, v: nat, t: nat)
    requires bitLen <= t
    ensures Shl(Shr(Low(v, bitLen), t), t) == 0
  {
    LowShr(v, bitLen);
    PowMonotone(2, bitLen, t);
    LowSmall(Low(v, bitLen), t);
    ShlOfZero(t);
  }

  lemma LoadedAll(e: nat)
    ensures Shl(Shr(e, 0), 0) == e
  {
  }

  /** The read step of CompressArray: shift up by one element and or its masked bytes in. */
  method LoadElement(row: seq<byte>, accValue: nat, bitLen: nat, bytePad: nat) returns (acc: nat)
    requires ElementSize(bitLen) && |row| == ElementWidth(bitLen, bytePad)
    ensures acc == Low(Shl(accValue, bitLen), 32) + Low(Number(8, row), bitLen)
  {
    hide *;
    WidthFacts(bitLen, bytePad);
    var mask := Pow2(bitLen) - 1;
    acc := Low(Shl(accValue, bitLen), 32);
    ghost var e := Low(Number(8, row), bitLen);
    ghost var y := Low(accValue, 32 - bitLen);
    LowOfShl(accValue, bitLen, 32 - bitLen);
    NoneYet(bitLen, Number(8, row), 8 * (|row| - bytePad));
    LoadedAll(e);
    for x := bytePad to |row|
      invariant acc == Shl(y, bitLen) + Shl(Shr(e, 8 * (|row| - x)), 8 * (|row| - x))
    {
      var s := 8 * (|row| - x - 1);
      PlaceRowByte(row, bitLen, y, x);
      acc := Or(acc, Shl(And(row[x], And(Shr(mask, s), 0xFF)), s));
    }
  }

  lemma TableElementsPrefix(bitLen: nat, w: nat, table: seq<byte>, j: nat)
    requires w > 0 && j + w <= |table|
    ensures TableElements(bitLen, w, table[..j + w])
         == TableElements(bitLen, w, table[..j]) + [Low(Number(8, table[j..j + w]), bitLen)]
  {
    TableElementsAppend(bitLen, w, table[..j], table[j..j + w]);
    assert table[..j] + table[j..j + w] == table[..j + w];
  }

  /** `read` holds the elements in the first `j` bytes of the table. */
  ghost predicate Loaded(bitLen: nat, w: nat, table: seq<byte>, j: nat, read: seq<nat>)
  {
    j <= |table| && read == TableElements(bitLen, w, table[..j]) && Span(w, |read|) == j
  }

  lemma LoadedIs(bitLen: nat, w: nat, table: seq<byte>, j: nat, read: seq<nat>)
    requires Loaded(bitLen, w, table, j, read)
    ensures j <= |table| && read == TableElements(bitLen, w, table[..j])
  {
  }

  /** `n` whole elements come in, and as many whole bytes as they hold go out. */
  ghost predicate PackedLength(bitLen: nat, w: nat, inLen: nat, n: nat, outLen: nat)
  {
    Span(w, n) <= inLen < Span(w, n + 1) && Span(8, outLen) <= Span(bitLen, n) < Span(8, outLen + 1)
  }

  /** The output length that CompressArray asserts is the number of whole bytes in the elements. */
  lemma AssertedPackedLength(bitLen: nat, w: nat, n: nat, outLen: nat)
    requires w > 0 && outLen == bitLen * (n * w) / (8 * w)
    ensures PackedLength(bitLen, w, n * w, n, outLen)
  {
    MulAssoc(bitLen, n, w);
    DivDivMul(bitLen * n, w);
    SpanIsMul(w, n);
    WholeBytes(bitLen, n);
  }

  /**
  For an input that ends within an element the asserted output length is still the right one
  exactly when the bits beyond the last whole byte, together with the share of the last
  element that is there, make no byte; otherwise the missing part would be read beyond the end.
  */
  lemma AssertedLengthFits(bitLen: nat, w: nat, inLen: nat, outLen: nat)
    requires w > 0 && outLen == bitLen * inLen / (8 * w)
    ensures PackedLength(bitLen, w, inLen, inLen / w, outLen) <==>
      bitLen * (inLen / w) % 8 * w + bitLen * (inLen % w) < 8 * w
  {
    hide Span;
    var n, r := inLen / w, inLen % w;
    DivModEquation(inLen, w);
    DivNonNegative(inLen, w);
    SpanIsMul(w, n);
    SpanIsMul(bitLen, n);
    SpanIsMul(8, outLen);
    SpanStep(w, n);
    SpanStep(8, outLen);
    var total, x := bitLen * inLen, bitLen * n;
    DivModEquation(total, 8 * w);
    MulMonotone(n * w, inLen, bitLen);
    MulAssoc(bitLen, n, w);
    BelowNext(x, w, outLen, total);
    Distributes(bitLen, n * w, r);
    WholeBytesOf(x, w, bitLen * r, outLen);
  }

  /** The whole bytes of x bits, and of some part of w more. */
  lemma WholeBytesOf(x: nat, w: nat, part: nat, q: nat)
    requires w > 0 && q == (x * w + part) / (8 * w)
    ensures 8 * q <= x <==> x % 8 * w + part < 8 * w
  {
    var b := x / 8;
    assert x == 8 * b + x % 8;
    assert x * w == b * (8 * w) + x % 8 * w;
    var y := x % 8 * w + part;
    assert x % 8 * w >= 0 by { MulMonotone(0, x % 8, w); }
    DivModEquation(y, 8 * w);
    DivNonNegative(y, 8 * w);
    Distributes(8 * w, b, y / (8 * w));
    DivModUnique(x * w + part, 8 * w, b + y / (8 * w), y % (8 * w));
    if y < 8 * w {
      DivModSmall(y, 8 * w);
    } else {
      DivAtLeast(y, 8 * w, 1);
    }
  }

  /** Fifteen bytes of two-byte elements of nine bits: the assertion asks for one byte too many. */
  lemma AssertedLengthTooLong()
    ensures 8 == 9 * 15 / (8 * 2) && !PackedLength(9, 2, 15, 15 / 2, 8)
  {
    AssertedLengthFits(9, 2, 15, 8);
  }

  lemma BelowNext(x: nat, w: nat, q: nat, total: nat)
    requires w > 0 && x * w <= total && total < q * (8 * w) + 8 * w
    ensures x < 8 * (q + 1)
  {
    assert 8 * (q + 1) * w == q * (8 * w) + 8 * w;
    if x >= 8 * (q + 1) {
      MulMonotone(8 * (q + 1), x, w);
    }
  }

  lemma WholeBytes(bitLen: nat, n: nat)
    ensures bitLen * n / 8 >= 0
    ensures Span(8, bitLen * n / 8) <= Span(bitLen, n) < Span(8, bitLen * n / 8 + 1)
  {
    SpanIsMul(bitLen, n);
    var x := Span(bitLen, n);
    SpanIsMul(8, x / 8);
    SpanIsMul(8, x / 8 + 1);
  }

  lemma DivDivMul(x: nat, w: nat)
    requires w > 0
    ensures x * w / (8 * w) == x / 8
  {
    var q, r := x / 8, x % 8;
    MulAssoc(q, 8, w);
    MulMonotone(r, 7, w);
    DivModUnique(x * w, 8 * w, q, r * w);
  }

  lemma NothingLoaded(bitLen: nat, w: nat, table: seq<byte>)
    ensures Loaded(bitLen, w, table, 0, [])
  {
  }

  /** While an output byte is still missing there is an element left to read. */
  lemma ElementLeft(bitLen: nat, w: nat, table: seq<byte>, n: nat, outLen: nat,
                    j: nat, read: seq<nat>, written: seq<byte>, accBits: nat, acc: nat)
    requires w > 0 && bitLen >= 8
    requires PackedLength(bitLen, w, |table|, n, outLen)
    requires Loaded(bitLen, w, table, j, read) && Streamed(bitLen, read, 8, written, accBits, acc)
    ensures |written| < outLen && accBits < 8 ==> j + w <= |table|
    ensures |written| == outLen && accBits < bitLen ==> j == Span(w, n) && accBits < 8
  {
    ElementCount(bitLen, w, |table|, n, outLen, |read|, |written|, accBits);
  }

  lemma ElementCount(bitLen: nat, w: nat, inLen: nat, n: nat, outLen: nat, m: nat, i: nat, accBits: nat)
    requires w > 0 && bitLen >= 8
    requires PackedLength(bitLen, w, inLen, n, outLen)
    requires Span(w, m) <= inLen && Span(bitLen, m) == Span(8, i) + accBits
    ensures i < outLen && accBits < 8 ==> Span(w, m) + w <= inLen
    ensures i == outLen && accBits < bitLen ==> Span(w, m) == Span(w, n) && accBits < 8
  {
    hide Span;
    SpanStep(8, outLen);
    SpanStep(w, n);
    SpanOrder(w, m, n);
    SpanOrder(bitLen, m, n);
    SpanOrder(8, i, outLen);
  }

  lemma SpanStep(k: nat, n: nat)
    ensures Span(k, n + 1) == Span(k, n) + k
  {
  }

  lemma SpanOrder(k: nat, m: nat, n: nat)
    ensures m < n ==> Span(k, m) + k <= Span(k, n)
    ensures n < m ==> Span(k, n) + k <= Span(k, m)
  {
    if m < n {
      SpanMonotone(k, m + 1, n);
    } else if n < m {
      SpanMonotone(k, n + 1, m);
    }
  }

  lemma LoadStep(input: seq<byte>, j: nat, w: nat, bitLen: nat, read: seq<nat>, written: seq<byte>,
                 accBits: nat, acc: nat, loaded: nat)
    returns (read': seq<nat>)
    requires w > 0 && j + w <= |input| && accBits + bitLen <= 32
    requires Loaded(bitLen, w, input, j, read)
    requires Streamed(bitLen, read, 8, written, accBits, acc)
    requires loaded == Low(Shl(acc, bitLen), 32) + Low(Number(8, input[j..j + w]), bitLen)
    ensures loaded < WORD
    ensures Loaded(bitLen, w, input, j + w, read')
    ensures Streamed(bitLen, read', 8, written, accBits + bitLen, loaded)
  {
    var d := Low(Number(8, input[j..j + w]), bitLen);
    TableElementsPrefix(bitLen, w, input, j);
    LowShr(Number(8, input[j..j + w]), bitLen);
    ReadDigit(bitLen, read, 8, written, accBits, acc, d);
    ShiftIn(acc, accBits, bitLen, d);
    read' := read + [d];
  }

  lemma StoreStep(read: seq<nat>, bitLen: nat, written: seq<byte>, accBits: nat, acc: nat)
    requires Streamed(bitLen, read, 8, written, accBits, acc) && accBits >= 8
    ensures And(Shr(acc, accBits - 8), 0xFF) < 256
    ensures Streamed(bitLen, read, 8, written + [And(Shr(acc, accBits - 8), 0xFF)], accBits - 8, acc)
  {
    var rest := accBits - 8;
    PowWord();
    AndMask(Shr(acc, rest), 8);
    LowShr(Shr(acc, rest), 8);
    WriteDigit(bitLen, read, 8, written, rest, acc);
  }

  /** With fewer than 8 unread bits, read the next input element. */
  method Refill(input: seq<byte>, j: nat, bitLen: nat, bytePad: nat, accBits: nat, accValue: nat,
                ghost read: seq<nat>, ghost written: seq<byte>)
    returns (j': nat, accBits': nat, accValue': nat, ghost read': seq<nat>)
    requires ElementSize(bitLen) && accBits < bitLen && accValue < WORD
    requires accBits < 8 ==> j + ElementWidth(bitLen, bytePad) <= |input|
    requires Loaded(bitLen, ElementWidth(bitLen, bytePad), input, j, read)
    requires Streamed(bitLen, read, 8, written, accBits, accValue)
    ensures 8 <= accBits' < bitLen + 8 && accValue' < WORD
    ensures Loaded(bitLen, ElementWidth(bitLen, bytePad), input, j', read')
    ensures Streamed(bitLen, read', 8, written, accBits', accValue')
  {
    hide *;
    WidthFacts(bitLen, bytePad);
    if accBits >= 8 {
      return j, accBits, accValue, read;
    }
    var inWidth := ElementWidth(bitLen, bytePad);
    var loaded := LoadElement(input[j..j + inWidth], accValue, bitLen, bytePad);
    read' := LoadStep(input, j, inWidth, bitLen, read, written, accBits, accValue, loaded);
    return j + inWidth, accBits + bitLen, loaded, read';
  }

  method CompressArray(input: seq<byte>, out: array<byte>, bitLen: nat, bytePad: nat, ghost n: nat)
    requires ElementSize(bitLen)
    requires PackedLength(bitLen, ElementWidth(bitLen, bytePad), |input|, n, out.Length)
    modifies out
    ensures Span(ElementWidth(bitLen, bytePad), n) <= |input|
    ensures var w := ElementWidth(bitLen, bytePad);
      out[..] == Rebased(bitLen, TableElements(bitLen, w, input[..Span(w, n)]), 8)
  {
    hide *;
    WidthFacts(bitLen, bytePad);
    ghost var inWidth := ElementWidth(bitLen, bytePad);
    var accBits: nat, accValue: nat := 0, 0;
    var j: nat := 0;
    ghost var read: seq<nat>, written: seq<byte> := [], [];
    StreamStart(bitLen, 8, inWidth);
    NothingLoaded(bitLen, inWidth, input);
    for i := 0 to out.Length
      invariant accBits < bitLen && accValue < WORD
      invariant Loaded(bitLen, inWidth, input, j, read)
      invariant written == out[..i]
      invariant Streamed(bitLen, read, 8, written, accBits, accValue)
    {
      ElementLeft(bitLen, inWidth, input, n, out.Length, j, read, written, accBits, accValue);
      j, accBits, accValue, read := Refill(input, j, bitLen, bytePad, accBits, accValue, read, written);
      StoreStep(read, bitLen, written, accBits, accValue);
      accBits := accBits - 8;
      out[i] := And(Shr(accValue, accBits), 0xFF);
      written := written + [out[i]];
    }
    ElementLeft(bitLen, inWidth, input, n, out.Length, j, read, written, accBits, accValue);
    LoadedIs(bitLen, inWidth, input, j, read);
    assert written == out[..];
    StreamEnd(bitLen, read, 8, written, accBits, accValue);
  }

  // ---------------------------------------------------------------- the two together

  /** Compressing what ExpandArray writes gives the packed string back, for every padding. */
  lemma CompressAfterExpand(packed: seq<byte>, bitLen: nat, bytePad: nat)
    requires ElementSize(bitLen) && 8 * |packed| % bitLen == 0
    ensures var w := ElementWidth(bitLen, bytePad);
            Rebased(bitLen, TableElements(bitLen, w, Table(w, Rebased(8, packed, bitLen))), 8) == packed
  {
    PowWord();
    TableRoundTrip(bitLen, ElementWidth(bitLen, bytePad), Rebased(8, packed, bitLen));
    RebasedInverse(8, packed, bitLen);
  }

  /** Expanding what CompressArray writes gives the table back, when its elements fit. */
  lemma ExpandAfterCompress(es: seq<nat>, bitLen: nat, bytePad: nat)
    requires ElementSize(bitLen) && Proper(Pow2(bitLen), es) && bitLen * |es| % 8 == 0
    ensures var w := ElementWidth(bitLen, bytePad);
            Table(w, Rebased(8, Rebased(bitLen, TableElements(bitLen, w, Table(w, es)), 8), bitLen)) == Table(w, es)
  {
    TableRoundTrip(bitLen, ElementWidth(bitLen, bytePad), es);
    RebasedInverse(bitLen, es, 8);
  }
}
