/**
Big-endian digit strings in an arbitrary base: the number they denote, the shortest digit
string of a number, multiplying a digit string and adding to it, and changing the base.
*/
module Numerals {
  import opened Numbers

  ghost function Value(b: nat, ds: seq<nat>): nat
  {
    if ds == [] then 0 else Value(b, ds[..|ds| - 1]) * b + ds[|ds| - 1]
  }

  /** The digits of v without leading zeros. */
  ghost function Digits(b: nat, v: nat): (ds: seq<nat>)
    requires b > 1
    ensures Proper(b, ds)
    decreases v
  {
    if v == 0 then [] else (DivSmaller(v, b); Digits(b, v / b) + [v % b])
  }

  lemma DivSmaller(v: nat, b: nat)
    requires v > 0 && b > 1
    ensures 0 <= v / b < v && 0 <= v % b < b
  {
    DivModEquation(v, b);
    DivNonNegative(v, b);
    if v / b >= v {
      MulMonotone(v, v / b, b);
      MulMonotone(2, b, v);
    }
  }

  function LeadingZeros(ds: seq<nat>): (n: nat)
    ensures n <= |ds| && (forall i :: 0 <= i < n ==> ds[i] == 0) && (n < |ds| ==> ds[n] != 0)
  {
    if ds == [] || ds[0] != 0 then 0 else 1 + LeadingZeros(ds[1..])
  }

  function Zeros(n: nat): (ds: seq<nat>)
    ensures |ds| == n && forall i :: 0 <= i < n ==> ds[i] == 0
  {
    seq(n, _ => 0)
  }

  lemma ValueAppend(b: nat, xs: seq<nat>, d: nat)
    ensures Value(b, xs + [d]) == Value(b, xs) * b + d
  {
    assert (xs + [d])[..|xs|] == xs;
  }

  lemma PowStep(b: nat, n: nat)
    ensures Pow(b, 0) == 1 && Pow(b, n + 1) == b * Pow(b, n)
  {
  }

  lemma {:induction false} ValueBound(b: nat, ds: seq<nat>)
    requires Proper(b, ds)
    ensures Value(b, ds) < Pow(b, |ds|)
  {
    hide Value, Pow;
    if ds == [] {
      NoValue(b);
      PowStep(b, 0);
    } else {
      var n := |ds| - 1;
      ValueBound(b, ds[..n]);
      ValueStep(b, ds);
      PowStep(b, n);
      MulMonotone(Value(b, ds[..n]) + 1, Pow(b, n), b);
    }
  }

  lemma {:induction false} DigitsValue(b: nat, v: nat)
    requires b > 1
    ensures Value(b, Digits(b, v)) == v
    ensures v > 0 ==> Digits(b, v) != [] && Digits(b, v)[0] != 0
    decreases v
  {
    if v > 0 {
      DivSmaller(v, b);
      DigitsValue(b, v / b);
      ValueAppend(b, Digits(b, v / b), v % b);
      DivModEquation(v, b);
      if v / b == 0 {
        assert Digits(b, v / b) == [];
      }
    }
  }

  lemma DigitsStep(b: nat, q: nat, d: nat)
    requires b > 1 && d < b && q * b + d > 0
    ensures Digits(b, q * b + d) == Digits(b, q) + [d]
  {
    DivModUnique(q * b + d, b, q, d);
  }

  lemma ValueStep(b: nat, ds: seq<nat>)
    requires ds != []
    ensures Value(b, ds) == Value(b, ds[..|ds| - 1]) * b + ds[|ds| - 1]
  {
  }

  /** The digits of a number are its digit string without the leading zeros. */
  lemma {:induction false} DigitsOfValue(b: nat, ds: seq<nat>)
    requires b > 1 && Proper(b, ds)
    ensures Digits(b, Value(b, ds)) == ds[LeadingZeros(ds)..]
    decreases |ds|
  {
    hide Value, Digits, LeadingZeros;
    if ds == [] {
      NoValue(b);
      NoDigits(b);
    } else {
      var n, z := |ds| - 1, LeadingZeros(ds);
      var xs, d := ds[..n], ds[n];
      var q := Value(b, xs);
      DigitsOfValue(b, xs);
      ValueStep(b, ds);
      PrefixZeros(ds);
      DigitsValue(b, q);
      NoDigits(b);
      MulPositive(q, b);
      if q * b + d > 0 {
        DigitsStep(b, q, d);
        assert z <= n;
        assert ds[z..] == xs[z..] + [d];
      } else {
        assert q == 0;
        assert |xs[LeadingZeros(xs)..]| == 0;
      }
    }
  }

  lemma NoValue(b: nat)
    ensures Value(b, []) == 0
  {
  }

  lemma MulPositive(x: nat, b: nat)
    requires b > 0
    ensures x > 0 ==> x * b > 0
  {
  }

  lemma {:induction false} PrefixZeros(ds: seq<nat>)
    requires ds != []
    ensures LeadingZeros(ds[..|ds| - 1]) == if LeadingZeros(ds) < |ds| then LeadingZeros(ds) else |ds| - 1
  {
    var xs := ds[..|ds| - 1];
    var z, y := LeadingZeros(ds), LeadingZeros(xs);
    if y < |xs| {
      assert xs[y] == ds[y];
    }
    if z < |xs| {
      assert xs[z] == ds[z];
    }
  }

  // ---------------------------------------------------------------- multiply and add

  /** The digits of f * ds + c, digit by digit from the end, and the carry that leaves the top. */
  ghost function MulAdd(b: nat, f: nat, ds: seq<nat>, c: nat): (r: (seq<nat>, nat))
    requires b > 0
    ensures |r.0| == |ds| && Proper(b, r.0)
  {
    if ds == [] then ([], c)
    else
      var x := c + f * ds[|ds| - 1];
      DivModEquation(x, b);
      DivNonNegative(x, b);
      var rest := MulAdd(b, f, ds[..|ds| - 1], x / b);
      (rest.0 + [x % b], rest.1)
  }

  lemma {:induction false} MulAddMeans(b: nat, f: nat, ds: seq<nat>, c: nat)
    requires b > 0
    ensures var r := MulAdd(b, f, ds, c);
      Value(b, r.0) + r.1 * Pow(b, |ds|) == Value(b, ds) * f + c
    decreases |ds|
  {
    if ds != [] {
      var n := |ds| - 1;
      var x := c + f * ds[n];
      DivModEquation(x, b);
      DivNonNegative(x, b);
      var rest := MulAdd(b, f, ds[..n], x / b);
      MulAddMeans(b, f, ds[..n], x / b);
      ValueAppend(b, rest.0, x % b);
      MulAddStep(b, f, Value(b, ds[..n]), ds[n], c, Value(b, rest.0), rest.1, Pow(b, n));
    }
  }

  lemma MulAddStep(b: nat, f: nat, p: nat, d: nat, c: nat, v: nat, carry: nat, power: nat)
    requires b > 0 && v + carry * power == p * f + (c + f * d) / b
    ensures v * b + (c + f * d) % b + carry * (b * power) == (p * b + d) * f + c
  {
    var x := c + f * d;
    DivModEquation(x, b);
    assert carry * (b * power) == carry * power * b;
    assert (v + carry * power) * b == v * b + carry * power * b;
    assert (p * f + x / b) * b == p * f * b + x / b * b;
    assert (p * b + d) * f == p * f * b + f * d;
  }

  /** When the result fits its digits, nothing is carried out and the digits denote the result. */
  lemma MulAddFits(b: nat, f: nat, ds: seq<nat>, c: nat)
    requires b > 0 && Value(b, ds) * f + c < Pow(b, |ds|)
    ensures MulAdd(b, f, ds, c).1 == 0 && Value(b, MulAdd(b, f, ds, c).0) == Value(b, ds) * f + c
  {
    hide MulAdd, Value, Pow;
    var r := MulAdd(b, f, ds, c);
    MulAddMeans(b, f, ds, c);
    if r.1 > 0 {
      MulMonotone(1, r.1, Pow(b, |ds|));
    }
  }

  lemma {:induction false} MulAddNothing(b: nat, f: nat, n: nat)
    requires b > 0
    ensures MulAdd(b, f, Zeros(n), 0) == (Zeros(n), 0)
    decreases n
  {
    if n > 0 {
      assert Zeros(n)[..n - 1] == Zeros(n - 1);
      DivModSmall(0, b);
      MulAddNothing(b, f, n - 1);
      assert Zeros(n) == Zeros(n - 1) + [0];
    }
  }

  // ---------------------------------------------------------------- change of base

  /** The digit string in another base, with as many leading zeros. */
  ghost function Respelled(from: nat, to: nat, ds: seq<nat>): (r: seq<nat>)
    requires to > 1
    ensures Proper(to, r)
  {
    Zeros(LeadingZeros(ds)) + Digits(to, Value(from, ds))
  }

  lemma {:induction false} ZerosThen(n: nat, ds: seq<nat>)
    requires ds == [] || ds[0] != 0
    ensures LeadingZeros(Zeros(n) + ds) == n
  {
    var all := Zeros(n) + ds;
    assert forall i :: 0 <= i < n ==> all[i] == 0;
    assert ds != [] ==> all[n] == ds[0];
  }

  lemma {:induction false} ValueOfZeros(b: nat, n: nat, ds: seq<nat>)
    ensures Value(b, Zeros(n) + ds) == Value(b, ds)
    decreases |ds|, n
  {
    var all := Zeros(n) + ds;
    if ds != [] {
      assert all[..|all| - 1] == Zeros(n) + ds[..|ds| - 1];
      ValueOfZeros(b, n, ds[..|ds| - 1]);
    } else if n > 0 {
      assert all == Zeros(n - 1) + [0];
      ValueAppend(b, Zeros(n - 1), 0);
      assert Zeros(n - 1) + ds == Zeros(n - 1);
      ValueOfZeros(b, n - 1, ds);
    }
  }

  lemma ValueZeros(b: nat, n: nat)
    ensures Value(b, Zeros(n)) == 0
  {
    ValueOfZeros(b, n, []);
    assert Zeros(n) + [] == Zeros(n);
  }

  /** Changing the base and changing it back is the identity. */
  lemma RespelledInverse(from: nat, to: nat, ds: seq<nat>)
    requires from > 1 && to > 1 && Proper(from, ds)
    ensures Respelled(to, from, Respelled(from, to, ds)) == ds
  {
    hide Value, Digits;
    var z, v := LeadingZeros(ds), Value(from, ds);
    DigitsValue(to, v);
    NoDigits(to);
    ZerosThen(z, Digits(to, v));
    ValueOfZeros(to, z, Digits(to, v));
    DigitsOfValue(from, ds);
    assert ds[..z] == Zeros(z);
    assert ds == ds[..z] + ds[z..];
  }

  lemma NoDigits(b: nat)
    requires b > 1
    ensures Digits(b, 0) == []
  {
  }
}
