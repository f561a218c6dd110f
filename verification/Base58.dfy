/**
Base58: byte strings as text over an alphabet of 58 characters, one leading '1' for each
leading zero byte.
*/
module Base58 {
  import opened Numbers
  import opened Bits
  import opened Results
  import opened Numerals

  const ALPHABET: string := "123456789" + "ABCDEFGH" + "JKLMN" + "PQRSTUVWXYZ" + "abcdefghijk" + "mnopqrstuvwxyz"

  // ---------------------------------------------------------------- the alphabet

  predicate Run(s: string, first: char)
  {
    forall i :: 0 <= i < |s| ==> s[i] as int == first as int + i
  }

  lemma Runs()
    ensures Run("123456789", '1') && Run("ABCDEFGH", 'A') && Run("JKLMN", 'J') && Run("PQRSTUVWXYZ", 'P')
    ensures Run("abcdefghijk", 'a') && Run("mnopqrstuvwxyz", 'm')
  {
  }

  function Code(d: nat): nat
    requires d < 58
  {
    if d < 9 then '1' as int + d
    else if d < 17 then 'A' as int + (d - 9)
    else if d < 22 then 'J' as int + (d - 17)
    else if d < 33 then 'P' as int + (d - 22)
    else if d < 44 then 'a' as int + (d - 33)
    else 'm' as int + (d - 44)
  }

  lemma Spelled(d: nat)
    requires d < 58
    ensures |ALPHABET| == 58 && ALPHABET[d] as int == Code(d)
  {
    Runs();
  }

  lemma AlphabetLength()
    ensures |ALPHABET| == 58 && ALPHABET[0] == '1'
  {
  }

  /** The alphabet is in order, so no character occurs twice. */
  lemma Increasing(i: nat, j: nat)
    requires i < j < 58
    ensures |ALPHABET| == 58 && ALPHABET[i] < ALPHABET[j]
  {
    Spelled(i);
    Spelled(j);
  }

  /** The position of a character in the alphabet from position i on. */
  function IndexFrom(c: char, i: nat): (r: Option<nat>)
    requires i <= |ALPHABET|
    ensures r.Some? ==> r.value < |ALPHABET| && ALPHABET[r.value] == c
    ensures r.None? ==> c !in ALPHABET[i..]
    decreases |ALPHABET| - i
  {
    if i == |ALPHABET| then None else if ALPHABET[i] == c then Some(i) else IndexFrom(c, i + 1)
  }

  function IndexOf(c: char): Option<nat>
  {
    IndexFrom(c, 0)
  }

  lemma IndexOfMeans(c: char)
    ensures IndexOf(c).Some? <==> c in ALPHABET
    ensures IndexOf(c).Some? ==> IndexOf(c).value < 58 && |ALPHABET| == 58 && ALPHABET[IndexOf(c).value] == c
  {
    hide ALPHABET;
    AlphabetLength();
    assert ALPHABET[0..] == ALPHABET;
  }

  lemma IndexOfSymbol(d: nat)
    requires d < 58
    ensures |ALPHABET| == 58 && IndexOf(ALPHABET[d]) == Some(d)
  {
    hide ALPHABET, IndexOf;
    AlphabetLength();
    var c := ALPHABET[d];
    IndexOfMeans(c);
    var e := IndexOf(c).value;
    if e < d {
      Increasing(e, d);
    } else if d < e {
      Increasing(d, e);
    }
  }

  // ---------------------------------------------------------------- the buffers are large enough

  lemma {:induction false} PowLessEq(a: nat, b: nat, n: nat)
    requires a <= b
    ensures Pow(a, n) <= Pow(b, n)
  {
    if n > 0 {
      PowLessEq(a, b, n - 1);
      MulMonotone(a, b, Pow(a, n - 1));
      MulMonotone(Pow(a, n - 1), Pow(b, n - 1), b);
    }
  }

  /** If x^p <= y^q then x^(p a + r) <= y^(q a + t) whenever x^r <= y^t. */
  lemma Blocks(x: nat, p: nat, y: nat, q: nat, a: nat, r: nat, t: nat)
    requires Pow(x, p) <= Pow(y, q) && Pow(x, r) <= Pow(y, t)
    ensures Pow(x, p * a + r) <= Pow(y, q * a + t)
  {
    hide Pow;
    PowMul(x, p, a);
    PowMul(y, q, a);
    PowLessEq(Pow(x, p), Pow(y, q), a);
    PowAdd(x, p * a, r);
    PowAdd(y, q * a, t);
    MulMonotone(Pow(x, p * a), Pow(y, q * a), Pow(x, r));
    MulMonotone(Pow(x, r), Pow(y, t), Pow(y, q * a));
  }

  lemma Powers58()
    ensures Pow(58, 0) == 1 && Pow(58, 1) == 58 && Pow(58, 2) == 3364 && Pow(58, 3) == 195112
    ensures Pow(58, 4) == 11316496 && Pow(58, 5) == 656356768 && Pow(58, 6) == 38068692544
    ensures Pow(58, 7) == 2207984167552 && Pow(58, 8) == 128063081718016 && Pow(58, 9) == 7427658739644928
    ensures Pow(58, 10) == 430804206899405824 && Pow(58, 11) == 24986644000165537792
    ensures Pow(58, 12) == 1449225352009601191936 && Pow(58, 13) == 84055070416556869132288
    ensures Pow(58, 14) == 4875194084160298409672704 && Pow(58, 15) == 282761256881297307761016832
  {
  }

  lemma Powers256()
    ensures Pow(256, 0) == 1 && Pow(256, 1) == 256 && Pow(256, 2) == 65536 && Pow(256, 3) == 16777216
    ensures Pow(256, 4) == 4294967296 && Pow(256, 5) == 1099511627776 && Pow(256, 6) == 281474976710656
    ensures Pow(256, 7) == 72057594037927936 && Pow(256, 8) == 18446744073709551616
    ensures Pow(256, 9) == 4722366482869645213696 && Pow(256, 10) == 1208925819614629174706176
    ensures Pow(256, 11) == 309485009821345068724781056
  {
  }

  lemma EncoderRest(r: nat)
    requires r < 8
    ensures Pow(256, r) <= Pow(58, r * 138 / 100 + 1)
  {
    hide Pow;
    Powers58();
    Powers256();
  }

  /** The encoder's buffer of n * 138 / 100 + 1 digits holds every number of n bytes. */
  lemma EncoderFits(n: nat)
    ensures Pow(256, n) <= Pow(58, n * 138 / 100 + 1)
  {
    hide Pow;
    var a, r := n / 8, n % 8;
    Powers58();
    Powers256();
    EncoderRest(r);
    Blocks(256, 8, 58, 11, a, r, r * 138 / 100 + 1);
    PowMonotone(58, 11 * a + (r * 138 / 100 + 1), n * 138 / 100 + 1);
  }

  lemma DecoderRest(b: nat)
    requires b < 15
    ensures Pow(58, b) <= Pow(256, if b == 0 then 0 else b * 733 / 1000 + 1)
  {
    hide Pow;
    Powers58();
    Powers256();
  }

  lemma RestOfRatio(b: nat)
    requires 0 < b < 15
    ensures b * 733 % 1000 >= 20
  {
    if b < 8 {
      assert b == 1 || b == 2 || b == 3 || b == 4 || b == 5 || b == 6 || b == 7;
    } else {
      assert b == 8 || b == 9 || b == 10 || b == 11 || b == 12 || b == 13 || b == 14;
    }
  }

  lemma BlockSize(c: nat, b: nat)
    requires c < 5 && b < 15
    ensures 11 * c + (if b == 0 then 0 else b * 733 / 1000 + 1) <= (15 * c + b) * 733 / 1000 + 1
  {
    if b > 0 {
      RestOfRatio(b);
    }
  }

  lemma DecoderBlock(r: nat)
    requires r < 71
    ensures Pow(58, r) <= Pow(256, r * 733 / 1000 + 1)
  {
    hide Pow;
    var c, b := r / 15, r % 15;
    FifteenDigits();
    DecoderRest(b);
    BlockSize(c, b);
    var t := if b == 0 then 0 else b * 733 / 1000 + 1;
    Blocks(58, 15, 256, 11, c, b, t);
    PowMonotone(256, 11 * c + t, r * 733 / 1000 + 1);
  }

  lemma FifteenDigits()
    ensures Pow(58, 15) <= Pow(256, 11)
  {
    hide Pow;
    Powers58();
    Powers256();
  }

  lemma SeventyOne()
    ensures Pow(58, 71) <= Pow(256, 52)
  {
    hide Pow;
    Powers58();
    Powers256();
    PowAdd(58, 15, 15);
    PowAdd(58, 30, 30);
    PowAdd(58, 60, 11);
    PowAdd(256, 11, 11);
    PowAdd(256, 22, 22);
    PowAdd(256, 44, 8);
  }

  /** The decoder's buffer of n * 733 / 1000 + 1 bytes holds every number of n digits. */
  lemma DecoderFits(n: nat)
    ensures Pow(58, n) <= Pow(256, n * 733 / 1000 + 1)
  {
    hide Pow;
    var a, r := n / 71, n % 71;
    SeventyOne();
    DecoderBlock(r);
    Blocks(58, 71, 256, 52, a, r, r * 733 / 1000 + 1);
    PowMonotone(256, 52 * a + (r * 733 / 1000 + 1), n * 733 / 1000 + 1);
  }

  // ---------------------------------------------------------------- what the codec means

  ghost function TextOf(ds: seq<nat>): (t: string)
    requires Proper(58, ds)
    ensures |t| == |ds|
  {
    AlphabetLength();
    seq(|ds|, i requires 0 <= i < |ds| => ALPHABET[ds[i]])
  }

  ghost predicate Alphabetic(t: string)
  {
    forall i :: 0 <= i < |t| ==> t[i] in ALPHABET
  }

  ghost function DigitsOf(t: string): (ds: seq<nat>)
    requires Alphabetic(t)
    ensures |ds| == |t| && Proper(58, ds)
  {
    seq(|t|, i requires 0 <= i < |t| => (IndexOfMeans(t[i]); IndexOf(t[i]).value))
  }

  ghost function EncodedText(bs: seq<byte>): string
  {
    TextOf(Respelled(256, 58, bs))
  }

  predicate IsSpace(c: char)
  {
    c == ' ' || c == '\t' || c == '\n' || c == '\U{0B}' || c == '\U{0C}' || c == '\r'
  }

  function DropSpaces(t: string): (r: string)
    ensures |r| <= |t| && r == t[|t| - |r|..] && (r != [] ==> !IsSpace(r[0]))
    ensures forall i :: 0 <= i < |t| - |r| ==> IsSpace(t[i])
  {
    if t != [] && IsSpace(t[0]) then DropSpaces(t[1..]) else t
  }

  function TrimSpaces(t: string): (r: string)
    ensures r <= t && (r != [] ==> !IsSpace(r[|r| - 1]))
    ensures forall i :: |r| <= i < |t| ==> IsSpace(t[i])
  {
    if t != [] && IsSpace(t[|t| - 1]) then TrimSpaces(t[..|t| - 1]) else t
  }

  /** The text without the white space around it. */
  function Stripped(t: string): string
  {
    TrimSpaces(DropSpaces(t))
  }

  /** The part of a string that its C form shows: what comes before the first null character. */
  function CString(s: string): (t: string)
    ensures t <= s && '\0' !in t && (|t| < |s| ==> s[|t|] == '\0')
  {
    if s == [] || s[0] == '\0' then [] else [s[0]] + CString(s[1..])
  }

  ghost function DecodedText(t: string): Option<seq<nat>>
  {
    if Alphabetic(Stripped(t)) then Some(Respelled(58, 256, DigitsOf(Stripped(t)))) else None
  }

  // ---------------------------------------------------------------- round trips

  lemma DigitsOfText(ds: seq<nat>)
    requires Proper(58, ds)
    ensures Alphabetic(TextOf(ds)) && DigitsOf(TextOf(ds)) == ds
  {
    hide ALPHABET, IndexOf;
    AlphabetLength();
    forall i | 0 <= i < |ds| ensures IndexOf(TextOf(ds)[i]) == Some(ds[i]) && TextOf(ds)[i] in ALPHABET {
      IndexOfSymbol(ds[i]);
    }
  }

  lemma TextOfDigits(t: string)
    requires Alphabetic(t)
    ensures TextOf(DigitsOf(t)) == t
  {
    hide ALPHABET, IndexOf;
    forall i | 0 <= i < |t| ensures TextOf(DigitsOf(t))[i] == t[i] {
      IndexOfMeans(t[i]);
    }
  }

  lemma NoSpaceInAlphabet(c: char)
    requires c in ALPHABET
    ensures !IsSpace(c) && c != '\0'
  {
    hide ALPHABET;
    AlphabetLength();
    var d :| 0 <= d < |ALPHABET| && ALPHABET[d] == c;
    Spelled(d);
  }

  lemma AlphabeticIsStripped(t: string)
    requires Alphabetic(t)
    ensures Stripped(t) == t && CString(t) == t
  {
    hide ALPHABET;
    forall i | 0 <= i < |t| ensures !IsSpace(t[i]) && t[i] != '\0' {
      NoSpaceInAlphabet(t[i]);
    }
    var s := CString(t);
    assert |s| == |t|;
  }

  /** Decoding what was encoded gives the bytes back, for every byte string. */
  lemma DecodeOfEncode(bs: seq<byte>)
    ensures DecodedText(EncodedText(bs)) == Some(bs)
  {
    hide ALPHABET, TextOf, DigitsOf, Respelled, Stripped, CString;
    var ds := Respelled(256, 58, bs);
    DigitsOfText(ds);
    AlphabeticIsStripped(TextOf(ds));
    RespelledInverse(256, 58, bs);
  }

  /** Encoding what was decoded gives the text back without the white space around it. */
  lemma EncodeOfDecode(t: string)
    requires DecodedText(t).Some?
    ensures TextOf(Respelled(256, 58, DecodedText(t).value)) == Stripped(t)
  {
    hide ALPHABET, TextOf, DigitsOf, Respelled, Stripped;
    RespelledInverse(58, 256, DigitsOf(Stripped(t)));
    TextOfDigits(Stripped(t));
  }

  // ---------------------------------------------------------------- the loops

  /**
  Multiplies the number in the buffer by a factor and adds a carry. Digits beyond the
  first `length` from the end are zero and are visited only while there is a carry.
  */
  method MultiplyAdd(buf: array<nat>, base: nat, factor: nat, carry0: nat, length: nat) returns (carry: nat, i: nat)
    requires base > 0 && length <= buf.Length
    requires forall j :: 0 <= j < buf.Length - length ==> buf[j] == 0
    modifies buf
    ensures (buf[..], carry) == MulAdd(base, factor, old(buf[..]), carry0)
    ensures i <= buf.Length && forall j :: 0 <= j < buf.Length - i ==> buf[j] == 0
  {
    hide MulAdd;
    ghost var before, n := buf[..], buf.Length;
    carry := carry0;
    i := 0;
    assert before[..n] == before;
    assert MulAdd(base, factor, before, carry).0 + buf[n..] == MulAdd(base, factor, before, carry).0;
    while (carry != 0 || i < length) && i < buf.Length
      invariant i <= n && forall j :: 0 <= j < n - i ==> buf[j] == before[j]
      invariant var rest := MulAdd(base, factor, before[..n - i], carry);
        MulAdd(base, factor, before, carry0) == (rest.0 + buf[n - i..], rest.1)
    {
      var at := buf.Length - 1 - i;
      ghost var tail := buf[n - i..];
      MulAddUnfold(base, factor, before[..n - i], carry, tail);
      assert before[..n - i][..n - i - 1] == before[..n - i - 1];
      DivModEquation(carry + factor * buf[at], base);
      DivNonNegative(carry + factor * buf[at], base);
      carry := carry + factor * buf[at];
      buf[at] := carry % base;
      assert buf[at..] == [carry % base] + tail;
      carry := carry / base;
      i := i + 1;
    }
    if i < n {
      assert before[..n - i] == Zeros(n - i);
      MulAddNothing(base, factor, n - i);
      assert buf[..] == Zeros(n - i) + buf[n - i..];
    } else {
      MulAddEmpty(base, factor, carry);
      assert before[..0] == [] && buf[..] == [] + buf[0..];
    }
  }

  lemma MulAddUnfold(b: nat, f: nat, ds: seq<nat>, c: nat, tail: seq<nat>)
    requires b > 0 && ds != []
    ensures var x := c + f * ds[|ds| - 1];
      && x / b >= 0 && x % b >= 0
      && MulAdd(b, f, ds, c).0 + tail == MulAdd(b, f, ds[..|ds| - 1], x / b).0 + ([x % b] + tail)
      && MulAdd(b, f, ds, c).1 == MulAdd(b, f, ds[..|ds| - 1], x / b).1
  {
    var x := c + f * ds[|ds| - 1];
    DivModEquation(x, b);
    DivNonNegative(x, b);
    var rest := MulAdd(b, f, ds[..|ds| - 1], x / b).0;
    assert rest + [x % b] + tail == rest + ([x % b] + tail);
  }

  lemma MulAddEmpty(b: nat, f: nat, c: nat)
    requires b > 0
    ensures MulAdd(b, f, [], c) == ([], c)
  {
  }

  /** Where the digits start, when everything before `from` is known to be zero. */
  method SkipZeros(buf: array<nat>, from: nat) returns (it: nat)
    requires from <= buf.Length && forall j :: 0 <= j < from ==> buf[j] == 0
    ensures it == LeadingZeros(buf[..])
  {
    hide LeadingZeros;
    it := from;
    while it < buf.Length && buf[it] == 0
      invariant it <= buf.Length && forall j :: 0 <= j < it ==> buf[j] == 0
    {
      it := it + 1;
    }
    assert forall j :: 0 <= j < buf.Length ==> buf[..][j] == buf[j];
  }

  lemma TextAppend(ds: seq<nat>, d: nat)
    requires Proper(58, ds) && d < 58
    ensures Proper(58, ds + [d]) && |ALPHABET| == 58 && TextOf(ds + [d]) == TextOf(ds) + [ALPHABET[d]]
  {
    hide ALPHABET;
    AlphabetLength();
  }

  lemma TextOfZeros(n: nat)
    ensures TextOf(Zeros(n)) == seq(n, _ => '1')
  {
    hide ALPHABET;
    AlphabetLength();
  }

  /** Leading ones, then the characters of the digits from position it on. */
  method Translate(zeroes: nat, buf: array<nat>, start: nat) returns (str: string)
    requires start <= buf.Length && Proper(58, buf[..])
    ensures str == TextOf(Zeros(zeroes) + buf[start..])
  {
    hide ALPHABET, TextOf;
    AlphabetLength();
    str := seq(zeroes, _ => '1');
    TextOfZeros(zeroes);
    var it := start;
    ghost var ds := Zeros(zeroes);
    while it < buf.Length
      invariant start <= it <= buf.Length
      invariant Proper(58, ds) && ds == Zeros(zeroes) + buf[start..it] && str == TextOf(ds)
    {
      assert buf[it] == buf[..][it];
      TextAppend(ds, buf[it]);
      str := str + [ALPHABET[buf[it]]];
      ds := ds + [buf[it]];
      it := it + 1;
    }
    assert buf[start..it] == buf[start..];
  }

  /** Appending one digit keeps the value within the buffer. */
  lemma AppendFits(from: nat, to: nat, ds: seq<nat>, z: nat, d: nat, n: nat, buf: seq<nat>)
    requires from > 1 && to > 1 && Proper(from, ds) && d < from
    requires z <= |ds| < z + n && ds[..z] == Zeros(z)
    requires Pow(from, n) <= Pow(to, |buf|) && Value(to, buf) == Value(from, ds)
    ensures MulAdd(to, from, buf, d).1 == 0 && Value(to, MulAdd(to, from, buf, d).0) == Value(from, ds + [d])
  {
    hide MulAdd, Value, Pow;
    var rest := ds[z..] + [d];
    assert ds + [d] == Zeros(z) + rest;
    ValueAppend(from, ds, d);
    ValueOfZeros(from, z, rest);
    ValueBound(from, rest);
    PowMonotone(from, |rest|, n);
    MulAddFits(to, from, buf, d);
  }

  method EncodeBase58(bs: seq<byte>) returns (str: string)
    ensures str == EncodedText(bs)
  {
    hide ALPHABET, Value, MulAdd, Pow, LeadingZeros, Digits, TextOf;
    var p: nat := 0;
    while p < |bs| && bs[p] == 0
      invariant p <= |bs| && forall i :: 0 <= i < p ==> bs[i] == 0
    {
      p := p + 1;
    }
    var zeroes := p;
    var size := (|bs| - p) * 138 / 100 + 1;
    var b58 := new nat[size](_ => 0);
    var length: nat := 0;
    EncoderFits(|bs| - p);
    assert bs[..p] == Zeros(p) && b58[..] == Zeros(size);
    ValueZeros(256, p);
    ValueZeros(58, size);
    while p < |bs|
      invariant zeroes <= p <= |bs| && length <= size
      invariant Proper(58, b58[..]) && Value(58, b58[..]) == Value(256, bs[..p])
      invariant forall j :: 0 <= j < size - length ==> b58[j] == 0
    {
      AppendFits(256, 58, bs[..p], zeroes, bs[p], |bs| - zeroes, b58[..]);
      assert bs[..p] + [bs[p]] == bs[..p + 1];
      var carry, i := MultiplyAdd(b58, 58, 256, bs[p], length);
      assert carry == 0;
      length := i;
      p := p + 1;
    }
    var it := SkipZeros(b58, size - length);
    assert bs[..p] == bs;
    DigitsOfValue(58, b58[..]);
    str := Translate(zeroes, b58, it);
  }

  /** What the decoder has read so far. */
  ghost predicate Read(u: string, ds: seq<nat>)
  {
    |ds| <= |u| && Proper(58, ds) && forall i :: 0 <= i < |ds| ==> IndexOf(u[i]) == Some(ds[i])
  }

  lemma OneIsZero(c: char)
    ensures IndexOf(c) == Some(0) <==> c == '1'
  {
    hide ALPHABET, IndexOf;
    AlphabetLength();
    IndexOfMeans(c);
    IndexOfSymbol(0);
  }

  lemma DropSpacesIs(t: string, n: nat)
    requires n <= |t| && (forall i :: 0 <= i < n ==> IsSpace(t[i])) && (n < |t| ==> !IsSpace(t[n]))
    ensures DropSpaces(t) == t[n..]
  {
  }

  /** A text with a foreign character that trimming does not remove. */
  lemma Refused(t: string, u: string, bad: nat, later: nat)
    requires u == DropSpaces(t) && bad <= later < |u|
    requires u[bad] !in ALPHABET && !IsSpace(u[later])
    ensures DecodedText(t).None?
  {
    hide ALPHABET, DropSpaces, IsSpace;
    var s := TrimSpaces(u);
    assert later < |s|;
    assert s[bad] == u[bad];
  }

  lemma DigitsOfIs(w: string, ds: seq<nat>)
    requires |w| == |ds| && forall i :: 0 <= i < |w| ==> IndexOf(w[i]) == Some(ds[i])
    ensures Alphabetic(w) && DigitsOf(w) == ds
  {
    hide ALPHABET, IndexOf;
    forall i | 0 <= i < |w| ensures w[i] in ALPHABET {
      IndexOfMeans(w[i]);
    }
  }

  /** Trimming removes the white space after the digits and nothing else. */
  lemma Trimmed(u: string, n: nat)
    requires n <= |u| && Alphabetic(u[..n]) && forall i :: n <= i < |u| ==> IsSpace(u[i])
    ensures TrimSpaces(u) == u[..n]
  {
    hide ALPHABET, TrimSpaces, IsSpace;
    if n > 0 {
      assert u[..n][n - 1] == u[n - 1];
      NoSpaceInAlphabet(u[n - 1]);
    }
    TrimSpacesIs(u, n);
  }

  lemma Accepted(t: string, u: string, n: nat, ds: seq<nat>, zeroes: nat)
    requires u == DropSpaces(t) && n <= |u| && |ds| == n
    requires Read(u, ds) && forall i :: n <= i < |u| ==> IsSpace(u[i])
    requires zeroes <= |ds| && (forall i :: 0 <= i < zeroes ==> ds[i] == 0) && (zeroes < |ds| ==> ds[zeroes] != 0)
    ensures DecodedText(t) == Some(Zeros(zeroes) + Digits(256, Value(58, ds)))
  {
    hide ALPHABET, Value, Digits, IndexOf, LeadingZeros, DropSpaces, TrimSpaces, DigitsOf, Alphabetic, IsSpace;
    var w := u[..n];
    assert forall i :: 0 <= i < |w| ==> w[i] == u[i];
    DigitsOfIs(w, ds);
    Trimmed(u, n);
    assert LeadingZeros(ds) == zeroes;
  }

  lemma TrimSpacesIs(t: string, n: nat)
    requires n <= |t| && (forall i :: n <= i < |t| ==> IsSpace(t[i])) && (n > 0 ==> !IsSpace(t[n - 1]))
    ensures TrimSpaces(t) == t[..n]
  {
  }

  method SkipSpaces(psz: string, start: nat) returns (p: nat)
    requires start <= |psz|
    ensures start <= p <= |psz| && (forall i :: start <= i < p ==> IsSpace(psz[i])) && (p < |psz| ==> !IsSpace(psz[p]))
  {
    p := start;
    while p < |psz| && IsSpace(psz[p])
      invariant start <= p <= |psz| && forall i :: start <= i < p ==> IsSpace(psz[i])
    {
      p := p + 1;
    }
  }

  method CountOnes(psz: string) returns (zeroes: nat)
    ensures zeroes <= |psz| && Read(psz, Zeros(zeroes)) && (zeroes < |psz| ==> psz[zeroes] != '1')
  {
    hide ALPHABET, IndexOf;
    zeroes := 0;
    while zeroes < |psz| && psz[zeroes] == '1'
      invariant zeroes <= |psz| && Read(psz, Zeros(zeroes))
    {
      OneIsZero(psz[zeroes]);
      assert Zeros(zeroes + 1) == Zeros(zeroes) + [0];
      zeroes := zeroes + 1;
    }
  }

  /** Decoding after the leading white space. */
  method DecodeRest(ghost t: string, psz: string) returns (r: Option<seq<byte>>)
    requires psz == DropSpaces(t)
    ensures r == DecodedText(t)
  {
    hide ALPHABET, Value, MulAdd, Pow, LeadingZeros, Digits, IndexOf, DropSpaces, IsSpace, DecodedText;
    var zeroes := CountOnes(psz);
    var p := zeroes;
    var size := (|psz| - p) * 733 / 1000 + 1;
    var b256 := new nat[size](_ => 0);
    DecoderFits(|psz| - p);
    ghost var ds := Zeros(zeroes);
    assert b256[..] == Zeros(size);
    ValueZeros(256, size);
    ValueZeros(58, zeroes);
    while p < |psz| && !IsSpace(psz[p])
      invariant zeroes <= p == |ds| <= |psz| && ds[..zeroes] == Zeros(zeroes)
      invariant Read(psz, ds) && (zeroes < p ==> ds[zeroes] != 0)
      invariant p == zeroes < |psz| ==> psz[p] != '1'
      invariant Proper(256, b256[..]) && Value(256, b256[..]) == Value(58, ds)
    {
      var ch := IndexOf(psz[p]);
      IndexOfMeans(psz[p]);
      if ch.None? {
        Refused(t, psz, p, p);
        return None;
      }
      OneIsZero(psz[p]);
      AppendFits(58, 256, ds, zeroes, ch.value, |psz| - zeroes, b256[..]);
      var carry, _ := MultiplyAdd(b256, 256, 58, ch.value, size);
      assert carry == 0;
      ds := ds + [ch.value];
      p := p + 1;
    }
    ghost var n := p;
    p := SkipSpaces(psz, p);
    if p < |psz| {
      SpaceIsForeign(psz[n]);
      Refused(t, psz, n, p);
      return None;
    }
    Accepted(t, psz, n, ds, zeroes);
    var it := SkipZeros(b256, 0);
    DigitsOfValue(256, b256[..]);
    var vch: seq<byte> := seq(zeroes, _ => 0) + b256[it..];
    r := Some(vch);
  }

  lemma SpaceIsForeign(c: char)
    requires IsSpace(c)
    ensures c !in ALPHABET
  {
    hide ALPHABET, IsSpace;
    if c in ALPHABET {
      NoSpaceInAlphabet(c);
    }
  }

  method DecodeBase58(str: string) returns (r: Option<seq<byte>>)
    ensures r == DecodedText(CString(str))
  {
    hide ALPHABET, Value, MulAdd, Pow, LeadingZeros, Digits, IndexOf, CString, DropSpaces, IsSpace, DecodedText;
    var psz := CString(str);
    var p := SkipSpaces(psz, 0);
    DropSpacesIs(psz, p);
    r := DecodeRest(psz, psz[p..]);
  }

  // ---------------------------------------------------------------- with a checksum

  /** A hash function as the check uses it. */
  ghost predicate IsHash(hash: seq<byte> -> seq<byte>)
  {
    forall data :: |hash(data)| == 32
  }

  method EncodeBase58Check(hash: seq<byte> -> seq<byte>, vchIn: seq<byte>) returns (str: string)
    requires IsHash(hash)
    ensures str == EncodedText(vchIn + hash(vchIn)[..4])
  {
    str := EncodeBase58(vchIn + hash(vchIn)[..4]);
  }

  lemma EncodedIsStripped(bs: seq<byte>)
    ensures Stripped(EncodedText(bs)) == EncodedText(bs)
  {
    hide ALPHABET, Respelled;
    DigitsOfText(Respelled(256, 58, bs));
    AlphabeticIsStripped(EncodedText(bs));
  }

  /** Accepts exactly the texts that encode some data with its checksum, up to white space around them. */
  method DecodeBase58Check(hash: seq<byte> -> seq<byte>, str: string) returns (r: Option<seq<byte>>)
    requires IsHash(hash)
    ensures forall data: seq<byte> :: Stripped(CString(str)) == EncodedText(data + hash(data)[..4]) <==> r == Some(data)
  {
    hide EncodedText, DecodedText, Stripped, CString;
    ghost var t := CString(str);
    var vch := DecodeBase58(str);
    if vch.Some? {
      EncodeOfDecode(t);
      EncodedAgain(t, vch.value);
    }
    forall data: seq<byte> | Stripped(t) == EncodedText(data + hash(data)[..4])
      ensures vch == Some(data + hash(data)[..4])
    {
      DecodeStripped(t, data + hash(data)[..4]);
    }
    if vch.None? || |vch.value| < 4 {
      return None;
    }
    var n := |vch.value| - 4;
    var data := vch.value[..n];
    assert vch.value == data + vch.value[n..];
    if hash(data)[..4] != vch.value[n..] {
      return None;
    }
    r := Some(data);
  }

  lemma EncodedAgain(t: string, bs: seq<byte>)
    requires DecodedText(t) == Some(bs)
    ensures EncodedText(bs) == Stripped(t)
  {
    hide ALPHABET, Respelled, Stripped;
    EncodeOfDecode(t);
  }

  lemma DecodeStripped(t: string, bs: seq<byte>)
    requires Stripped(t) == EncodedText(bs)
    ensures DecodedText(t) == Some(bs)
  {
    hide ALPHABET, Respelled, Stripped, DigitsOf, EncodedText;
    EncodedIsStripped(bs);
    DecodeOfEncode(bs);
  }
}
