/**
Compression of amounts: factors of ten are divided out, at most nine, and the rest is
renumbered without the multiples of ten. The code is computed in 64 bits, and amounts
whose code does not fit are proved not to be given back.
*/
module Amounts {
  import opened Numbers

  const MAX_MONEY: nat := 21_000_000 * 100_000_000

  /** Divides out factors of ten, at most nine in all, counting them from e. */
  ghost function Strip(n: nat, e: nat): (nat, nat)
    requires n > 0 && e <= 9
    decreases 9 - e
  {
    if n % 10 == 0 && e < 9 then Strip(n / 10, e + 1) else (n, e)
  }

  ghost function Compressed(n: nat): nat
  {
    if n == 0 then 0
    else
      var (m, e) := Strip(n, 0);
      if e < 9 then 1 + (m / 10 * 9 + m % 10 - 1) * 10 + e else 1 + (m - 1) * 10 + 9
  }

  /** The mantissa and exponent that a compressed amount spells. */
  ghost function Mantissa(x: nat): nat
    requires x > 0
  {
    var q := (x - 1) / 10;
    if (x - 1) % 10 < 9 then q / 9 * 10 + q % 9 + 1 else q + 1
  }

  ghost function Decompressed(x: nat): nat
  {
    if x == 0 then 0 else Mantissa(x) * Pow(10, (x - 1) % 10)
  }

  lemma TenTimes(m: nat, k: nat)
    ensures m * Pow(10, k + 1) == 10 * (m * Pow(10, k))
  {
    var p := Pow(10, k);
    assert Pow(10, k + 1) == 10 * p;
    assert m * (10 * p) == 10 * (m * p);
  }

  lemma {:induction false} StripMeans(n: nat, e: nat)
    requires n > 0 && e <= 9
    ensures var (m, f) := Strip(n, e);
            && m > 0 && e <= f <= 9 && (f < 9 ==> m % 10 != 0)
            && n == m * Pow(10, f - e) && m <= n
    decreases 9 - e
  {
    hide Pow;
    PowZero(10);
    if n % 10 == 0 && e < 9 {
      StripMeans(n / 10, e + 1);
      var (m, f) := Strip(n / 10, e + 1);
      TenTimes(m, f - e - 1);
    }
  }

  lemma {:induction false} StripOf(m: nat, k: nat, e: nat)
    requires m > 0 && e + k <= 9 && (e + k < 9 ==> m % 10 != 0)
    ensures Pow(10, k) > 0 && m * Pow(10, k) > 0 && Strip(m * Pow(10, k), e) == (m, e + k)
    decreases k
  {
    PowPositive(10, k);
    if k > 0 {
      var p := m * Pow(10, k - 1);
      assert m * Pow(10, k) == 10 * p;
      StripOf(m, k - 1, e + 1);
    }
  }

  lemma CompressedSpells(m: nat, e: nat, x: nat)
    requires m > 0 && e <= 9 && (e < 9 ==> m % 10 != 0)
    requires x == if e < 9 then 1 + (m / 10 * 9 + m % 10 - 1) * 10 + e else 1 + (m - 1) * 10 + 9
    ensures x > 0 && (x - 1) % 10 == e && Mantissa(x) == m
  {
    var a := if e < 9 then m / 10 * 9 + m % 10 - 1 else m - 1;
    DivModUnique(x - 1, 10, a, e);
    if e < 9 {
      DivModUnique(a, 9, m / 10, m % 10 - 1);
    }
  }

  /** Decompression undoes compression, for every amount. */
  lemma AmountRoundTrip(n: nat)
    ensures Decompressed(Compressed(n)) == n
  {
    if n > 0 {
      hide Pow, Strip, Mantissa;
      StripMeans(n, 0);
      var (m, e) := Strip(n, 0);
      CompressedSpells(m, e, Compressed(n));
    }
  }

  lemma MantissaMeans(x: nat)
    requires x > 0
    ensures var m, e := Mantissa(x), (x - 1) % 10;
            && m > 0 && (e < 9 ==> m % 10 != 0)
            && x == if e < 9 then 1 + (m / 10 * 9 + m % 10 - 1) * 10 + e else 1 + (m - 1) * 10 + 9
  {
  }

  /** Compression undoes decompression: every code is the code of some amount. */
  lemma CodeRoundTrip(x: nat)
    ensures Compressed(Decompressed(x)) == x
  {
    if x > 0 {
      hide Pow, Strip, Mantissa;
      MantissaMeans(x);
      StripOf(Mantissa(x), (x - 1) % 10, 0);
    }
  }

  method CompressAmount(n0: nat) returns (x: nat)
    requires n0 < TWO64
    ensures x == Compressed(n0) % TWO64
  {
    if n0 == 0 {
      return 0;
    }
    var n := n0;
    var e := 0;
    while n % 10 == 0 && e < 9
      invariant n > 0 && 0 <= e <= 9 && Strip(n, e) == Strip(n0, 0)
      decreases 9 - e
    {
      n := n / 10;
      e := e + 1;
    }
    if e < 9 {
      var d := n % 10;
      assert 1 <= d <= 9;
      n := n / 10;
      x := (1 + (n * 9 + d - 1) * 10 + e) % TWO64;
    } else {
      x := (1 + (n - 1) * 10 + 9) % TWO64;
    }
  }

  lemma ModMul(a: nat, k: nat)
    ensures a % TWO64 * k % TWO64 == a * k % TWO64
  {
    var q := a / TWO64;
    var r := a % TWO64;
    var q2, r2 := r * k / TWO64, r * k % TWO64;
    assert a * k == (q * k + q2) * TWO64 + r2 by {
      assert a * k == q * TWO64 * k + r * k;
    }
    DivModUnique(a * k, TWO64, q * k + q2, r2);
  }

  method DecompressAmount(x0: nat) returns (n: nat)
    requires x0 < TWO64
    ensures n == Decompressed(x0) % TWO64
  {
    if x0 == 0 {
      return 0;
    }
    var x := x0 - 1;
    var e := x % 10;
    x := x / 10;
    if e < 9 {
      var d := x % 9 + 1;
      x := x / 9;
      n := x * 10 + d;
    } else {
      n := x + 1;
    }
    n := ScaleUp(n, e);
  }

  method ScaleUp(m: nat, k: nat) returns (n: nat)
    ensures n == m * Pow(10, k) % TWO64
  {
    n := m % TWO64;
    var e := k;
    assert m * Pow(10, 0) == m;
    while e > 0
      invariant 0 <= e <= k && n == m * Pow(10, k - e) % TWO64
    {
      ModMul(m * Pow(10, k - e), 10);
      assert m * Pow(10, k - e) * 10 == m * Pow(10, k - e + 1);
      n := n * 10 % TWO64;
      e := e - 1;
    }
  }

  // ---------------------------------------------------------------- amounts whose code overflows

  /** The largest amount, apart from multiples of ten, whose code has 64 bits. */
  const LARGEST: nat := 2_049_638_230_412_172_402

  lemma PlainCode(n: nat)
    requires n % 10 != 0
    ensures Compressed(n) == 9 * n + n % 10 - 9
  {
  }

  lemma TensCode(n: nat)
    requires n % 10 == 0
    ensures Compressed(n) <= n
  {
    hide Pow;
    if n > 0 {
      assert Strip(n, 0) == Strip(n / 10, 1);
      StripMeans(n / 10, 1);
    }
  }

  /** Exactly these amounts have a code of 64 bits. */
  lemma CodeFitsExactly(n: nat)
    requires n < TWO64
    ensures Compressed(n) < TWO64 <==> n % 10 == 0 || n <= LARGEST
  {
    hide Compressed;
    if n % 10 != 0 {
      PlainCode(n);
    } else {
      TensCode(n);
    }
  }

  // An amount n that is no multiple of ten has the code 9 * n + n % 10 - 9. Suppose that this
  // exceeds 64 bits by k multiples of 2^64. What is left of the code spells Tens(k) factors of
  // ten, and a mantissa below n by Drop(k) or one less.

  function Tens(k: nat): nat
  {
    4 * k % 10
  }

  function Drop(k: nat): nat
  {
    (k * TWO64 + Tens(k) + 8) / 9
  }

  lemma TensAre(k: nat)
    requires 1 <= k <= 8
    ensures Tens(k) < 9 && (k * TWO64 + Tens(k)) % 10 == 0
  {
  }

  lemma MantissaOf(x: nat, a: nat, e: nat)
    requires e < 9 && x == 10 * a + e + 1
    ensures (x - 1) % 10 == e && Mantissa(x) == a + a / 9 + 1
  {
    DivModUnique(x - 1, 10, a, e);
  }

  /** Skipping the multiples of ten is rounding a tenth up or down. */
  lemma Rounding(n: nat, c: nat, a: nat, drop: nat)
    requires n % 10 != 0 && 10 * a == 9 * n + n % 10 - 10 - 10 * c && 10 * c <= 9 * drop <= 10 * c + 8
    ensures n - drop <= a + a / 9 + 1 <= n - drop + 1
  {
  }

  lemma CutCode(k: nat, n: nat, x: nat)
    requires 1 <= k <= 8 && n % 10 != 0 && x + k * TWO64 == 9 * n + n % 10 - 9
    ensures x > 0 && (x - 1) % 10 == Tens(k) < 9
    ensures Mantissa(x) == n - Drop(k) || Mantissa(x) == n - Drop(k) + 1
  {
    hide Mantissa, Tens;
    TensAre(k);
    var c := (k * TWO64 + Tens(k)) / 10;
    var a := n / 10 * 9 + n % 10 - 1 - c;
    MantissaOf(x, a, Tens(k));
    Rounding(n, c, a, Drop(k));
  }

  /** A factor p - 1 that has an inverse modulo 2^64, up to the given multiple of 2^64. */
  predicate Invertible(p: nat, inverse: nat, turns: nat)
  {
    (p - 1) * inverse == 1 + turns * TWO64
  }

  /** An amount that p times a mantissa z above it spells, up to the given multiple of 2^64. */
  predicate IsRoot(n: nat, z: int, p: nat, turns: int)
  {
    n < TWO64 && (n + z) * p == n + turns * TWO64
  }

  /** There is only one. */
  lemma OnlyRoot(p: nat, inverse: nat, s: nat, n: nat, root: nat, z: int, i: int, j: int)
    requires Invertible(p, inverse, s) && IsRoot(n, z, p, i) && IsRoot(root, z, p, j)
    ensures n == root
  {
    var m := n - root;
    assert m * (p - 1) == (i - j) * TWO64;
    assert m * (p - 1) * inverse == (i - j) * TWO64 * inverse;
    assert m * ((p - 1) * inverse) == m + m * s * TWO64;
    assert m == ((i - j) * inverse - m * s) * TWO64;
  }

  /** Not an amount whose code exceeds 64 bits by k multiples of 2^64. */
  predicate Outside(k: nat, n: nat)
  {
    9 * n < k * TWO64 || (k + 1) * TWO64 + 9 <= 9 * n
  }

  /** When the root is outside the class, no amount of the class is spelled. */
  lemma Refuted(k: nat, n: nat, z: int, p: nat, inverse: nat, s: nat, root: nat, j: int)
    requires Invertible(p, inverse, s) && IsRoot(root, z, p, j) && Outside(k, root) && !Outside(k, n) && n < TWO64
    ensures (n + z) * p % TWO64 != n
  {
    hide Outside;
    if (n + z) * p % TWO64 == n {
      DivModEquation((n + z) * p, TWO64);
      OnlyRoot(p, inverse, s, n, root, z, (n + z) * p / TWO64, j);
    }
  }

  // The classes, by the power of ten that the cut off code spells. Each call gives the inverse
  // of that power less one, and the root with the multiple of 2^64 that makes it one.

  lemma Hundreds(k: nat, n: nat, z: int)
    requires (k == 3 || k == 8) && (z == -(Drop(k) as int) || z == 1 - Drop(k)) && n < TWO64 && !Outside(k, n)
    ensures (n + z) * 100 % TWO64 != n
  {
    if k == 3 && z == -6148914691236517206 {
      Refuted(3, n, -6148914691236517206, 100, 12670490878911611211, 68, 14595908610510924680, 45);
    } else if k == 3 && z == -6148914691236517205 {
      Refuted(3, n, -6148914691236517205, 100, 12670490878911611211, 68, 1925417731599313468, -23);
    } else if k == 8 && z == -16397105843297379215 {
      Refuted(8, n, -16397105843297379215, 100, 12670490878911611211, 68, 1656273317504785780, -80);
    } else if k == 8 && z == -16397105843297379214 {
      Refuted(8, n, -16397105843297379214, 100, 12670490878911611211, 68, 7432526512302726184, -49);
    }
  }

  lemma TenThousands(k: nat, n: nat, z: int)
    requires (k == 1 || k == 6) && (z == -(Drop(k) as int) || z == 1 - Drop(k)) && n < TWO64 && !Outside(k, n)
    ensures (n + z) * 10000 % TWO64 != n
  {
    if k == 1 && z == -2049638230412172403 {
      Refuted(1, n, -2049638230412172403, 10000, 13458245626333751279, 7295, 10300052185393623248, 4472);
    } else if k == 1 && z == -2049638230412172402 {
      Refuted(1, n, -2049638230412172402, 10000, 13458245626333751279, 7295, 15288550632769423584, 7176);
    } else if k == 6 && z == -12297829382473034412 {
      Refuted(6, n, -12297829382473034412, 10000, 13458245626333751279, 7295, 17944327501778335040, 3060);
    } else if k == 6 && z == -12297829382473034411 {
      Refuted(6, n, -12297829382473034411, 10000, 13458245626333751279, 7295, 4486081875444583760, -4235);
    }
  }

  lemma Millions(n: nat, z: int)
    requires (z == -(Drop(4) as int) || z == 1 - Drop(4)) && n < TWO64 && !Outside(4, n)
    ensures (n + z) * 1000000 % TWO64 != n
  {
    if z == -8198552921648689608 {
      Refuted(4, n, -8198552921648689608, 1000000, 1672254362768354751, 90653, 15833915935345966592, 413913);
    } else if z == -8198552921648689607 {
      Refuted(4, n, -8198552921648689607, 1000000, 1672254362768354751, 90653, 14161661572577611840, 323260);
    }
  }

  lemma HundredMillions(k: nat, n: nat, z: int)
    requires (k == 2 || k == 7) && (z == -(Drop(k) as int) || z == 1 - Drop(k)) && n < TWO64 && !Outside(k, n)
    ensures (n + z) * 100000000 % TWO64 != n
  {
    if k == 2 && z == -4099276460824344805 {
      Refuted(2, n, -4099276460824344805, 100000000, 300153063250403071, 1627133, 14781022037580233472, 57905858);
    } else if k == 2 && z == -4099276460824344804 {
      Refuted(2, n, -4099276460824344804, 100000000, 300153063250403071, 1627133, 14480868974329830400, 56278725);
    } else if k == 7 && z == -14347467612885206814 {
      Refuted(7, n, -14347467612885206814, 100000000, 300153063250403071, 1627133, 4566181225880527360, -53024460);
    } else if k == 7 && z == -14347467612885206813 {
      Refuted(7, n, -14347467612885206813, 100000000, 300153063250403071, 1627133, 4266028162630124288, -54651593);
    }
  }

  lemma TenPowers()
    ensures Pow(10, 0) == 1 && Pow(10, 2) == 100 && Pow(10, 4) == 10000
    ensures Pow(10, 6) == 1000000 && Pow(10, 8) == 100000000
  {
    PowAdd(10, 4, 2);
    PowAdd(10, 4, 4);
  }

  /** In none of the classes does a mantissa spell the amount modulo 2^64. */
  lemma NoCoincidence(k: nat, n: nat, m: nat)
    requires 1 <= k <= 8 && n < TWO64 && !Outside(k, n) && (m == n - Drop(k) || m == n - Drop(k) + 1)
    ensures m * Pow(10, Tens(k)) % TWO64 != n
  {
    hide Pow, Drop, Outside;
    TenPowers();
    var z := m - n;
    if k == 5 {
      Fives(n, m);
    } else if k == 3 || k == 8 {
      Hundreds(k, n, z);
    } else if k == 1 || k == 6 {
      TenThousands(k, n, z);
    } else if k == 4 {
      Millions(n, z);
    } else {
      HundredMillions(k, n, z);
    }
  }

  lemma Fives(n: nat, m: nat)
    requires n < TWO64 && !Outside(5, n) && (m == n - Drop(5) || m == n - Drop(5) + 1)
    ensures m * Pow(10, Tens(5)) % TWO64 != n
  {
    TenPowers();
    assert m < n;
    DivModSmall(m, TWO64);
  }

  /** An amount whose code is cut off is not given back. */
  lemma CutOffIsLost(n: nat, k: nat, x: nat)
    requires n < TWO64 && n % 10 != 0 && 1 <= k <= 8 && x < TWO64 && x + k * TWO64 == 9 * n + n % 10 - 9
    ensures Decompressed(x) % TWO64 != n
  {
    hide Pow, Mantissa, Tens, Drop;
    CutCode(k, n, x);
    NoCoincidence(k, n, Mantissa(x));
  }

  lemma CodeQuotient(n: nat, code: nat)
    requires n < TWO64 && code >= TWO64 && code == 9 * n + n % 10 - 9
    ensures 1 <= code / TWO64 <= 8 && code % TWO64 + code / TWO64 * TWO64 == code
  {
  }

  /** The 64-bit code gives back exactly the amounts whose code fits: no other is given back by chance. */
  lemma SurvivesExactly(n: nat)
    requires n < TWO64
    ensures Decompressed(Compressed(n) % TWO64) % TWO64 == n <==> Compressed(n) < TWO64
  {
    hide Compressed, Decompressed;
    var code := Compressed(n);
    if code < TWO64 {
      DivModSmall(code, TWO64);
      AmountRoundTrip(n);
      DivModSmall(n, TWO64);
    } else {
      CodeFitsExactly(n);
      PlainCode(n);
      CodeQuotient(n, code);
      CutOffIsLost(n, code / TWO64, code % TWO64);
    }
  }

  /** The smallest amount that is lost comes back as ten thousand. */
  lemma SmallestLost()
    ensures Decompressed(Compressed(LARGEST + 1) % TWO64) % TWO64 == 10000
  {
    hide Compressed, Mantissa, Pow;
    PlainCode(LARGEST + 1);
    TenPowers();
    assert Compressed(LARGEST + 1) == TWO64 + 5;
    MantissaOf(5, 0, 4);
  }

  /** No 64-bit code spells the pattern of -1, which marks a spent output. */
  lemma NeverAllOnes(x: nat)
    requires x < TWO64
    ensures Decompressed(x) % TWO64 != TWO64 - 1
  {
    hide Pow, Mantissa;
    PowZero(10);
    if x > 0 {
      var e := (x - 1) % 10;
      MantissaBound(x);
      if e == 0 {
        DivModSmall(Decompressed(x), TWO64);
      } else {
        TenTimes(Mantissa(x), e - 1);
        EvenStaysEven(Decompressed(x));
      }
    }
  }

  lemma MantissaBound(x: nat)
    requires 0 < x < TWO64
    ensures Mantissa(x) < TWO64 - 1
  {
  }

  lemma EvenStaysEven(n: nat)
    requires n % 2 == 0
    ensures n % TWO64 % 2 == 0
  {
  }
}
