/** Script compression, and the compact encoding of transaction outputs. */
module Compressor {
  import opened Numbers
  import opened Bits
  import opened Results
  import opened Amounts
  import opened Coins
  import opened VarInt

  // ---------------------------------------------------------------- scripts

  const OP_DUP: byte := 0x76
  const OP_EQUAL: byte := 0x87
  const OP_EQUALVERIFY: byte := 0x88
  const OP_HASH160: byte := 0xa9
  const OP_CHECKSIG: byte := 0xac
  const SPECIAL_SCRIPTS: nat := 6

  /** The two operations on public keys that the elliptic-curve library provides. */
  datatype Curve = Curve(fullyValid: seq<byte> -> bool, decompress: seq<byte> -> Option<seq<byte>>) {
    /** Recovering a valid key from its x coordinate and the parity of y gives the key. */
    ghost predicate Lawful()
    {
      && (forall pk: seq<byte> :: |pk| == 65 && pk[0] == 4 && fullyValid(pk) ==>
            decompress([2 + pk[64] % 2] + pk[1..33]) == Some(pk))
      && (forall x :: decompress(x).Some? ==> |decompress(x).value| == 65)
    }
  }

  predicate IsToKeyID(s: seq<byte>)
  {
    |s| == 25 && s[0] == OP_DUP && s[1] == OP_HASH160 && s[2] == 20 && s[23] == OP_EQUALVERIFY && s[24] == OP_CHECKSIG
  }

  predicate IsToScriptID(s: seq<byte>)
  {
    |s| == 23 && s[0] == OP_HASH160 && s[1] == 20 && s[22] == OP_EQUAL
  }

  predicate IsToCompressedKey(s: seq<byte>)
  {
    |s| == 35 && s[0] == 33 && s[34] == OP_CHECKSIG && (s[1] == 2 || s[1] == 3)
  }

  predicate IsToFullKey(c: Curve, s: seq<byte>)
  {
    |s| == 67 && s[0] == 65 && s[66] == OP_CHECKSIG && s[1] == 4 && c.fullyValid(s[1..66])
  }

  function Compress(c: Curve, s: seq<byte>): Option<seq<byte>>
  {
    if IsToKeyID(s) then Some([0] + s[3..23])
    else if IsToScriptID(s) then Some([1] + s[2..22])
    else if IsToCompressedKey(s) then Some([s[1]] + s[2..34])
    else if IsToFullKey(c, s) then Some([4 + s[65] % 2] + s[2..34])
    else None
  }

  function GetSpecialSize(nSize: nat): nat
  {
    if nSize == 0 || nSize == 1 then 20 else if 2 <= nSize <= 5 then 32 else 0
  }

  /** The script of a special form, from its data; it fails when a key cannot be recovered. */
  function Decompress(c: Curve, nSize: nat, data: seq<byte>): Option<seq<byte>>
    requires nSize < SPECIAL_SCRIPTS && |data| == GetSpecialSize(nSize)
  {
    if nSize == 0 then Some([OP_DUP, OP_HASH160, 20] + data + [OP_EQUALVERIFY, OP_CHECKSIG])
    else if nSize == 1 then Some([OP_HASH160, 20] + data + [OP_EQUAL])
    else if nSize <= 3 then Some([33, nSize] + data + [OP_CHECKSIG])
    else match c.decompress([nSize - 2] + data)
      case Some(pk) => Some([65] + pk + [OP_CHECKSIG])
      case None => None
  }

  /** A script that has a special form is recovered from it. */
  lemma SpecialRoundTrip(c: Curve, s: seq<byte>)
    requires c.Lawful() && Compress(c, s).Some?
    ensures var out := Compress(c, s).value;
            && |out| > 0 && out[0] < SPECIAL_SCRIPTS && |out| == 1 + GetSpecialSize(out[0])
            && Decompress(c, out[0], out[1..]) == Some(s)
  {
    var out := Compress(c, s).value;
    if IsToKeyID(s) {
      assert out[1..] == s[3..23];
      assert s == [s[0], s[1], s[2]] + s[3..23] + [s[23], s[24]];
    } else if IsToScriptID(s) {
      assert out[1..] == s[2..22];
      assert s == [s[0], s[1]] + s[2..22] + [s[22]];
    } else if IsToCompressedKey(s) {
      assert out[1..] == s[2..34];
      assert s == [s[0], s[1]] + s[2..34] + [s[34]];
    } else {
      var pk := s[1..66];
      assert out[1..] == s[2..34] == pk[1..33] && pk[64] == s[65] && pk[0] == s[1];
      assert s == [s[0]] + pk + [s[66]];
    }
  }

  /** A script whose size, shifted by the special cases, is a 32-bit number. */
  predicate ScriptFits(s: seq<byte>)
  {
    |s| + SPECIAL_SCRIPTS < Pow2(32)
  }

  /** The serialized script: its special form, or its length past the special ones and the script itself. */
  ghost function ScriptBytes(c: Curve, s: seq<byte>): seq<byte>
  {
    match Compress(c, s)
    case Some(out) => out
    case None => Encoded(|s| + SPECIAL_SCRIPTS) + s
  }

  /** What deserializing into a script that holds `prior` gives. */
  ghost function ReadScript(c: Curve, stream: seq<byte>, prior: seq<byte>): Result<seq<byte>>
  {
    match ReadResult(stream, 32)
    case Failure => Failure
    case Ok(nSize, rest) =>
      if nSize < SPECIAL_SCRIPTS then
        var n := GetSpecialSize(nSize);
        if |rest| < n then Failure
        else match Decompress(c, nSize, rest[..n])
          case Some(script) => Ok(script, rest[n..])
          case None => Ok(prior, rest[n..])
      else
        var n := nSize - SPECIAL_SCRIPTS;
        if |rest| < n then Failure else Ok(rest[..n], rest[n..])
  }

  /** Every script is read back exactly, and no byte more is consumed. */
  lemma ScriptRoundTrip(c: Curve, s: seq<byte>, prior: seq<byte>, tail: seq<byte>)
    requires c.Lawful() && ScriptFits(s)
    ensures ReadScript(c, ScriptBytes(c, s) + tail, prior) == Ok(s, tail)
  {
    hide Compress, Decompress, Pow, Encoded, ReadResult;
    match Compress(c, s) {
      case Some(out) =>
        SpecialRoundTrip(c, s);
        SmallEncoded(out[0], 32);
        assert out + tail == Encoded(out[0]) + (out[1..] + tail);
        ReadWritten(out[0], 32, out[1..] + tail);
        assert (out[1..] + tail)[..|out| - 1] == out[1..] && (out[1..] + tail)[|out| - 1..] == tail;
      case None =>
        ReadWritten(|s| + SPECIAL_SCRIPTS, 32, s + tail);
        assert Encoded(|s| + SPECIAL_SCRIPTS) + s + tail == Encoded(|s| + SPECIAL_SCRIPTS) + (s + tail);
        assert (s + tail)[..|s|] == s && (s + tail)[|s|..] == tail;
    }
  }

  lemma SmallEncoded(n: byte, bits: nat)
    requires n < SPECIAL_SCRIPTS && bits >= 8
    ensures Encoded(n) == [n] && n < Pow2(bits)
  {
    PowMonotone(2, 8, bits);
    assert Pow2(8) == 256;
  }

  /** The size announced for a script is the size written. */
  method GetScriptSize(c: Curve, s: seq<byte>) returns (n: nat)
    ensures n == |ScriptBytes(c, s)|
  {
    match Compress(c, s)
    case Some(out) =>
      n := |out|;
    case None =>
      n := GetSizeOfVarInt(|s| + SPECIAL_SCRIPTS);
      n := |s| + n;
  }

  method SerializeScript(c: Curve, s: seq<byte>) returns (out: seq<byte>)
    requires ScriptFits(s)
    ensures out == ScriptBytes(c, s)
  {
    hide Pow;
    match Compress(c, s)
    case Some(compr) =>
      out := compr;
    case None =>
      out := WriteVarInt(|s| + SPECIAL_SCRIPTS, 32);
      out := out + s;
  }

  method UnserializeScript(c: Curve, stream: seq<byte>, prior: seq<byte>) returns (r: Result<seq<byte>>)
    ensures r == ReadScript(c, stream, prior)
  {
    hide ReadResult, Decompress;
    var size := ReadVarInt(stream, 32);
    if size.Failure? {
      return Failure;
    }
    var nSize, rest := size.value, size.rest;
    if nSize < SPECIAL_SCRIPTS {
      var n := GetSpecialSize(nSize);
      if |rest| < n {
        return Failure;
      }
      var script := Decompress(c, nSize, rest[..n]);
      return Ok(if script.Some? then script.value else prior, rest[n..]);
    }
    nSize := nSize - SPECIAL_SCRIPTS;
    if |rest| < nSize {
      return Failure;
    }
    r := Ok(rest[..nSize], rest[nSize..]);
  }

  // ---------------------------------------------------------------- outputs

  /** A signed amount as a 64-bit pattern. */
  function Unsigned(v: int): (n: nat)
    ensures n < TWO64
  {
    v % TWO64
  }

  ghost function OutBytes(c: Curve, o: TxOut): seq<byte>
  {
    Encoded(Compressed(Unsigned(o.nValue)) % TWO64) + ScriptBytes(c, o.scriptPubKey)
  }

  /** A 64-bit pattern as a signed amount. */
  function ToSigned(n: nat): int
  {
    if n < TWO64 / 2 then n else n - TWO64
  }

  /** Reading an output over a freshly constructed one: the round counter is not in the stream. */
  ghost function ReadOut(c: Curve, stream: seq<byte>): Result<TxOut>
  {
    match ReadResult(stream, 64)
    case Failure => Failure
    case Ok(x, rest) =>
      match ReadScript(c, rest, NULL_OUT.scriptPubKey)
      case Failure => Failure
      case Ok(script, tail) =>
        Ok(TxOut(ToSigned(Decompressed(x) % TWO64), script, NULL_OUT.nRounds), tail)
  }

  /** The value that is read back: the code of the 64-bit pattern is cut to 64 bits. */
  ghost function ReadValue(v: int): int
  {
    ToSigned(Decompressed(Compressed(Unsigned(v)) % TWO64) % TWO64)
  }

  /** 64-bit values whose code fits 64 bits. */
  predicate Survives(v: int)
  {
    -(TWO64 / 2) <= v < TWO64 / 2 && (Unsigned(v) % 10 == 0 || Unsigned(v) <= LARGEST)
  }

  /** Exactly these values are read back. */
  lemma ValueSurvives(v: int)
    ensures ReadValue(v) == v <==> Survives(v)
  {
    hide Compressed, Decompressed, Unsigned;
    var u := Unsigned(v);
    var w := Decompressed(Compressed(u) % TWO64) % TWO64;
    if -(TWO64 / 2) <= v < TWO64 / 2 {
      SignedUnsigned(v);
      CodeFitsExactly(u);
      SurvivesExactly(u);
    }
  }

  lemma MoneySurvives(v: int)
    requires 0 <= v <= MAX_MONEY
    ensures ReadValue(v) == v
  {
    hide ReadValue;
    DivModSmall(v, TWO64);
    ValueSurvives(v);
  }

  /** No value is read back as the mark of a spent output. */
  lemma NeverNull(v: int)
    ensures ReadValue(v) != -1
  {
    hide Compressed, Decompressed, Unsigned;
    NeverAllOnes(Compressed(Unsigned(v)) % TWO64);
  }

  /** The output that is read back: its script, no round counter, and whatever its value becomes. */
  ghost function ReadBackOut(o: TxOut): TxOut
  {
    TxOut(ReadValue(o.nValue), o.scriptPubKey, NULL_OUT.nRounds)
  }

  lemma OutRoundTrip(c: Curve, o: TxOut, tail: seq<byte>)
    requires c.Lawful() && ScriptFits(o.scriptPubKey)
    ensures ReadOut(c, OutBytes(c, o) + tail) == Ok(ReadBackOut(o), tail)
  {
    hide Compressed, Decompressed, Encoded, ReadResult, ReadScript, ScriptBytes, Pow, Unsigned;
    var x, script := Compressed(Unsigned(o.nValue)) % TWO64, ScriptBytes(c, o.scriptPubKey);
    Pow64();
    ReadWritten(x, 64, script + tail);
    ScriptRoundTrip(c, o.scriptPubKey, NULL_OUT.scriptPubKey, tail);
    assert OutBytes(c, o) + tail == Encoded(x) + (script + tail);
  }

  /** An output is read back as it was exactly when its value survives and it carries no round counter. */
  lemma OutSurvives(c: Curve, o: TxOut, tail: seq<byte>)
    requires c.Lawful() && ScriptFits(o.scriptPubKey)
    ensures ReadOut(c, OutBytes(c, o) + tail) == Ok(o, tail) <==> Survives(o.nValue) && o.nRounds == NULL_OUT.nRounds
  {
    hide ReadOut, OutBytes, Survives, ReadValue, ScriptFits;
    OutRoundTrip(c, o, tail);
    ValueSurvives(o.nValue);
  }

  lemma SignedUnsigned(v: int)
    requires -(TWO64 / 2) <= v < TWO64 / 2
    ensures ToSigned(Unsigned(v)) == v
  {
    if v < 0 {
      DivModUnique(v, TWO64, -1, v + TWO64);
    } else {
      DivModSmall(v, TWO64);
    }
  }

  lemma Pow64()
    ensures Pow2(64) == TWO64 && Pow2(32) == WORD
  {
    assert Pow2(8) == 256;
    PowAdd(2, 8, 8);
    PowAdd(2, 16, 16);
    PowAdd(2, 32, 32);
  }

  method SerializeOut(c: Curve, o: TxOut) returns (out: seq<byte>)
    requires ScriptFits(o.scriptPubKey)
    ensures out == OutBytes(c, o)
  {
    hide Compressed, Encoded, ScriptBytes, Pow, Unsigned;
    Pow64();
    var nVal := CompressAmount(Unsigned(o.nValue));
    out := WriteVarInt(nVal, 64);
    var script := SerializeScript(c, o.scriptPubKey);
    out := out + script;
  }

  method UnserializeOut(c: Curve, stream: seq<byte>) returns (r: Result<TxOut>)
    ensures r == ReadOut(c, stream)
  {
    hide Decompressed, ReadResult, ReadScript, Pow;
    var val := ReadVarInt(stream, 64);
    if val.Failure? {
      return Failure;
    }
    ReadFits(stream, 64);
    Pow64();
    var nValue := DecompressAmount(val.value);
    var script := UnserializeScript(c, val.rest, NULL_OUT.scriptPubKey);
    if script.Failure? {
      return Failure;
    }
    r := Ok(TxOut(ToSigned(nValue), script.value, NULL_OUT.nRounds), script.rest);
  }

  lemma ReadFits(stream: seq<byte>, bits: nat)
    ensures ReadResult(stream, bits).Ok? ==> ReadResult(stream, bits).value < Pow2(bits)
  {
    var i := FirstEnd(stream);
    if i < |stream| {
      LowShr(Decoded(stream[..i + 1]), bits);
    }
  }
}
