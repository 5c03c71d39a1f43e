/** Numbers as digit strings, most significant digit first, in any base from 2 up. */
module Radix {

  function Pow(b: nat, n: nat): nat {
    if n == 0 then 1 else b * Pow(b, n - 1)
  }

  ghost predicate Digits(ds: seq<int>, b: nat) {
    forall i :: 0 <= i < |ds| ==> 0 <= ds[i] < b
  }

  function Value(ds: seq<int>, b: nat): int {
    if ds == [] then 0 else Value(ds[..|ds| - 1], b) * b + ds[|ds| - 1]
  }

  /** The digits of n without leading zeros. */
  function Minimal(n: nat, b: nat): (ds: seq<int>)
    requires b >= 2
    ensures Digits(ds, b)
    ensures n > 0 ==> ds != [] && ds[0] != 0
    decreases n
  {
    if n == 0 then [] else
      DivSmaller(n, b);
      Minimal(n / b, b) + [n % b]
  }

  lemma {:induction false} MinimalValue(n: nat, b: nat)
    requires b >= 2
    ensures Value(Minimal(n, b), b) == n
    decreases n
  {
    if n > 0 {
      DivSmaller(n, b);
      MinimalValue(n / b, b);
      var front := Minimal(n / b, b);
      assert Minimal(n, b) == front + [n % b];
      LastDigit(front, n % b, b);
      hide Value, Minimal;
      Euclid(n, b);
    }
  }

  lemma LastDigit(front: seq<int>, d: int, b: nat)
    ensures Value(front + [d], b) == Value(front, b) * b + d
  {
    assert (front + [d])[..|front|] == front;
  }

  lemma Euclid(n: nat, b: nat)
    requires b > 0
    ensures n == n / b * b + n % b
  {}

  function Zeros(n: nat): (ds: seq<int>)
    ensures |ds| == n && forall i :: 0 <= i < n ==> ds[i] == 0
  {
    seq(n, _ => 0)
  }

  function LeadingZeros(ds: seq<int>): (n: nat)
    ensures n <= |ds|
    ensures forall i :: 0 <= i < n ==> ds[i] == 0
    ensures n < |ds| ==> ds[n] != 0
  {
    if ds == [] || ds[0] != 0 then 0 else 1 + LeadingZeros(ds[1..])
  }

  /** Change of base that keeps leading zeros one for one. */
  function Convert(ds: seq<int>, from: nat, to: nat): seq<int>
    requires from >= 2 && to >= 2 && Digits(ds, from)
  {
    ValueBound(ds, from);
    Zeros(LeadingZeros(ds)) + Minimal(Value(ds, from), to)
  }

  // --- Arithmetic --------------------------------------------------------------------------------

  lemma DivSmaller(n: nat, b: nat)
    requires n > 0 && b >= 2
    ensures n / b < n
  {
    var q := n / b;
    assert n == q * b + n % b;
    if q >= n { MulMono(n, q, b); }
  }

  lemma MulMono(a: int, b: int, c: nat)
    requires a <= b
    ensures a * c <= b * c
  {}

  lemma ScaleBound(v: nat, p: nat, b: nat, d: nat)
    requires v < p && d < b
    ensures 0 <= v * b + d < b * p
  {
    MulMono(v + 1, p, b);
    assert (v + 1) * b == v * b + b;
  }

  lemma Distribute(h: int, p: int, v: int, b: int)
    ensures (h * p + v) * b == h * (b * p) + v * b
  {}

  lemma PowPositive(b: nat, n: nat)
    requires b > 0
    ensures Pow(b, n) > 0
  {
    if n > 0 { PowPositive(b, n - 1); }
  }

  lemma {:induction false} PowAdd(b: nat, m: nat, n: nat)
    ensures Pow(b, m + n) == Pow(b, m) * Pow(b, n)
  {
    if m > 0 {
      PowAdd(b, m - 1, n);
      assert b * (Pow(b, m - 1) * Pow(b, n)) == (b * Pow(b, m - 1)) * Pow(b, n);
    } else {
      assert Pow(b, 0) * Pow(b, n) == Pow(b, n);
    }
  }

  lemma {:induction false} PowMul(b: nat, m: nat, n: nat)
    ensures Pow(Pow(b, m), n) == Pow(b, m * n)
  {
    if n > 0 {
      PowMul(b, m, n - 1);
      PowAdd(b, m, m * (n - 1));
      assert m + m * (n - 1) == m * n;
    } else {
      assert m * 0 == 0;
    }
  }

  lemma {:induction false} PowMonoBase(a: nat, b: nat, n: nat)
    requires a <= b
    ensures Pow(a, n) <= Pow(b, n)
  {
    if n > 0 {
      PowMonoBase(a, b, n - 1);
      MulMono(Pow(a, n - 1), Pow(b, n - 1), a);
      MulMono(a, b, Pow(b, n - 1));
      assert a * Pow(a, n - 1) <= a * Pow(b, n - 1) <= b * Pow(b, n - 1);
    }
  }

  lemma {:induction false} PowMonoExp(b: nat, m: nat, n: nat)
    requires b > 0 && m <= n
    ensures Pow(b, m) <= Pow(b, n)
  {
    PowAdd(b, m, n - m);
    PowPositive(b, n - m);
    var p, q := Pow(b, m), Pow(b, n - m);
    MulMono(1, q, p);
    assert q * p == p * q;
  }

  lemma {:induction false} PowStrict(b: nat, m: nat, n: nat)
    requires b >= 2 && m < n
    ensures Pow(b, m) < Pow(b, n)
  {
    PowMonoExp(b, m, n - 1);
    PowPositive(b, n - 1);
    MulMono(2, b, Pow(b, n - 1));
  }

  // --- Values ------------------------------------------------------------------------------------

  lemma {:induction false} ValueBound(ds: seq<int>, b: nat)
    requires b >= 1 && Digits(ds, b)
    ensures 0 <= Value(ds, b) < Pow(b, |ds|)
  {
    if ds != [] {
      ValueBound(ds[..|ds| - 1], b);
      assert 0 <= ds[|ds| - 1] < b;
      ScaleBound(Value(ds[..|ds| - 1], b), Pow(b, |ds| - 1), b, ds[|ds| - 1]);
    }
  }

  lemma {:induction false} ValueConcat(hi: seq<int>, lo: seq<int>, b: nat)
    ensures Value(hi + lo, b) == Value(hi, b) * Pow(b, |lo|) + Value(lo, b)
  {
    if lo == [] {
      assert hi + lo == hi;
    } else {
      var lo' := lo[..|lo| - 1];
      assert (hi + lo)[..|hi + lo| - 1] == hi + lo';
      ValueConcat(hi, lo', b);
      var h, p := Value(hi, b), Pow(b, |lo'|);
      Distribute(h, p, Value(lo', b), b);
    }
  }

  lemma {:induction false} ValueZeros(n: nat, b: nat)
    ensures Value(Zeros(n), b) == 0
  {
    if n > 0 {
      assert Zeros(n)[..n - 1] == Zeros(n - 1);
      ValueZeros(n - 1, b);
    }
  }

  lemma {:induction false} AllZeros(ds: seq<int>)
    requires forall i :: 0 <= i < |ds| ==> ds[i] == 0
    ensures ds == Zeros(|ds|)
  {}

  /** A digit string without leading zero is the minimal one of its value. */
  lemma {:induction false} MinimalUnique(ds: seq<int>, b: nat)
    requires b >= 2 && Digits(ds, b) && (ds != [] ==> ds[0] != 0)
    ensures Value(ds, b) >= 0 && Minimal(Value(ds, b), b) == ds
    ensures ds != [] ==> Value(ds, b) > 0
  {
    if ds != [] {
      var hi, d := ds[..|ds| - 1], ds[|ds| - 1];
      MinimalUnique(hi, b);
      var v := Value(hi, b);
      assert 0 <= d < b;
      DivMod(v, d, b);
      assert v == 0 ==> hi == [] && d > 0;
      assert hi + [d] == ds;
    }
  }

  lemma DivMod(v: nat, d: nat, b: nat)
    requires 0 <= d < b
    ensures (v * b + d) / b == v && (v * b + d) % b == d
    ensures v > 0 || d > 0 ==> v * b + d > 0
  {
    var n := v * b + d;
    var q, r := n / b, n % b;
    assert n == q * b + r;
    assert (q + 1) * b == q * b + b && (v + 1) * b == v * b + b;
    if q < v { MulMono(q + 1, v, b); }
    if q > v { MulMono(v + 1, q, b); }
    if v > 0 { MulMono(1, v, b); }
  }

  /** Stripping leading zeros leaves the minimal digits. */
  lemma {:induction false} StripZeros(ds: seq<int>, b: nat)
    requires b >= 2 && Digits(ds, b)
    ensures Value(ds, b) >= 0 && ds == Zeros(LeadingZeros(ds)) + Minimal(Value(ds, b), b)
  {
    var z := LeadingZeros(ds);
    var lo := ds[z..];
    assert ds[..z] == Zeros(z);
    assert ds == Zeros(z) + lo;
    ValueConcat(Zeros(z), lo, b);
    ValueZeros(z, b);
    MinimalUnique(lo, b);
    assert 0 * Pow(b, |lo|) == 0;
  }

  lemma {:induction false} LeadingZerosOf(n: nat, ds: seq<int>)
    requires ds != [] ==> ds[0] != 0
    ensures LeadingZeros(Zeros(n) + ds) == n
  {
    if n > 0 {
      assert (Zeros(n) + ds)[1..] == Zeros(n - 1) + ds;
      LeadingZerosOf(n - 1, ds);
    }
  }

  /** Changing the base and changing it back is the identity, so Convert is a bijection. */
  lemma {:induction false} ConvertBack(ds: seq<int>, from: nat, to: nat)
    requires from >= 2 && to >= 2 && Digits(ds, from)
    ensures Digits(Convert(ds, from, to), to)
    ensures Convert(Convert(ds, from, to), to, from) == ds
  {
    ValueBound(ds, from);
    var n, z := Value(ds, from), LeadingZeros(ds);
    var out := Minimal(n, to);
    LeadingZerosOf(z, out);
    MinimalValue(n, to);
    ValueConcat(Zeros(z), out, to);
    ValueZeros(z, to);
    assert 0 * Pow(to, |out|) == 0;
    StripZeros(ds, from);
  }
}
