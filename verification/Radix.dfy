/** Positional numerals, most significant digit first. */
module Radix {
  import opened Basics

  ghost function Pow(b: nat, n: nat): nat
  {
    if n == 0 then 1 else b * Pow(b, n - 1)
  }

  ghost predicate InBase(s: seq<nat>, b: nat)
  {
    forall i :: 0 <= i < |s| ==> s[i] < b
  }

  ghost function Value(s: seq<nat>, b: nat): nat
  {
    if s == [] then 0 else Value(s[..|s| - 1], b) * b + s[|s| - 1]
  }

  /** The numeral of `v` without leading zeros; empty for 0. */
  ghost function Digits(v: nat, b: nat): seq<nat>
    requires b >= 2
    decreases v
  {
    if v == 0 then [] else
      DivSmaller(v, b);
      Digits(v / b, b) + [v % b]
  }

  lemma DivSmaller(v: nat, b: nat)
    requires v > 0 && b >= 2
    ensures v / b < v
  {
    DivModSum(v, b);
    MulMono(2, b, v / b, v / b);
    TimesCommute(v / b, b);
  }

  lemma TimesCommute(x: nat, y: nat)
    ensures x * y == y * x
  {
  }

  lemma TimesAssociate(x: nat, y: nat, z: nat)
    ensures x * (y * z) == x * y * z
  {
  }

  lemma {:induction false} PowPositive(b: nat, n: nat)
    requires b > 0
    ensures Pow(b, n) > 0
  {
    if n > 0 { PowPositive(b, n - 1); }
  }

  lemma {:induction false} PowAdd(b: nat, m: nat, n: nat)
    ensures Pow(b, m + n) == Pow(b, m) * Pow(b, n)
  {
    if m > 0 {
      PowAdd(b, m - 1, n);
      PowNext(b, m - 1 + n);
      PowNext(b, m - 1);
      TimesAssociate(b, Pow(b, m - 1), Pow(b, n));
    } else {
      assert Pow(b, 0) == 1;
    }
  }

  lemma PowNext(b: nat, n: nat)
    ensures Pow(b, n + 1) == b * Pow(b, n)
  {
  }

  lemma PowMonotone(b: nat, m: nat, n: nat)
    requires b > 0 && m <= n
    ensures Pow(b, m) <= Pow(b, n)
  {
    PowAdd(b, n - m, m);
    PowPositive(b, n - m);
    MulGrows(Pow(b, n - m), Pow(b, m));
  }

  lemma MulGrows(k: nat, x: nat)
    requires k > 0
    ensures x <= k * x
  {
  }

  lemma MulMono(a: nat, b: nat, c: nat, d: nat)
    requires a <= b && c <= d
    ensures a * c <= b * d
  {
    assert a * c <= b * c <= b * d;
  }

  /** A strictly smaller power has a strictly smaller exponent. */
  lemma PowLess(b: nat, m: nat, n: nat)
    requires b > 0 && Pow(b, m) < Pow(b, n)
    ensures m < n
  {
    if n <= m { PowMonotone(b, n, m); }
  }

  lemma MulAddBound(x: nat, p: nat, d: nat, b: nat)
    requires x < p && d < b
    ensures x * b + d < p * b
  {
    assert (x + 1) * b <= p * b;
  }

  lemma {:induction false} ValueBound(s: seq<nat>, b: nat)
    requires InBase(s, b)
    ensures Value(s, b) < Pow(b, |s|)
  {
    if s != [] {
      ValueBound(s[..|s| - 1], b);
      MulAddBound(Value(s[..|s| - 1], b), Pow(b, |s| - 1), s[|s| - 1], b);
    }
  }

  lemma Distribute(x: nat, p: nat, y: nat, b: nat)
    ensures (x * p + y) * b == x * (b * p) + y * b
  {
    assert (x * p + y) * b == x * p * b + y * b;
    assert x * p * b == x * (p * b);
  }

  lemma {:induction false} ValueConcat(s: seq<nat>, t: seq<nat>, b: nat)
    ensures Value(s + t, b) == Value(s, b) * Pow(b, |t|) + Value(t, b)
  {
    if t == [] {
      assert s + t == s;
    } else {
      var t' := t[..|t| - 1];
      assert (s + t)[..|s + t| - 1] == s + t';
      ValueConcat(s, t', b);
      Distribute(Value(s, b), Pow(b, |t'|), Value(t', b), b);
    }
  }

  lemma ValueCons(d: nat, s: seq<nat>, b: nat)
    ensures Value([d] + s, b) == d * Pow(b, |s|) + Value(s, b)
  {
    ValueConcat([d], s, b);
    assert [d][..0] == [];
    assert Value([d], b) == Value([], b) * b + d;
  }

  lemma {:induction false} ZerosValue(n: nat, s: seq<nat>, b: nat)
    ensures Value(Zeros(n) + s, b) == Value(s, b)
  {
    if n == 0 {
      assert Zeros(0) + s == s;
    } else {
      ZerosValue(n - 1, s, b);
      assert Zeros(n) + s == [0] + (Zeros(n - 1) + s);
      ValueCons(0, Zeros(n - 1) + s, b);
    }
  }

  /** A numeral that starts with a nonzero digit is at least the matching power. */
  lemma LeadingDigit(s: seq<nat>, b: nat)
    requires s != [] && s[0] != 0
    ensures Pow(b, |s| - 1) <= Value(s, b)
  {
    assert s == [s[0]] + s[1..];
    ValueCons(s[0], s[1..], b);
    MulGrows(s[0], Pow(b, |s| - 1));
  }

  ghost predicate Minimal(s: seq<nat>)
  {
    s != [] ==> s[0] != 0
  }

  lemma ValueSnoc(s: seq<nat>, d: nat, b: nat)
    ensures Value(s + [d], b) == Value(s, b) * b + d
  {
    assert (s + [d])[..|s + [d]| - 1] == s;
  }

  lemma DivModSum(v: nat, b: nat)
    requires b >= 2
    ensures v == v / b * b + v % b && v % b < b && (v > 0 && v / b == 0 ==> v % b != 0)
  {
  }

  lemma {:induction false} DigitsOf(v: nat, b: nat)
    requires b >= 2
    ensures InBase(Digits(v, b), b) && Minimal(Digits(v, b)) && Value(Digits(v, b), b) == v
  {
    if v > 0 {
      DivSmaller(v, b);
      DigitsOf(v / b, b);
      DivModSum(v, b);
      ValueSnoc(Digits(v / b, b), v % b, b);
      assert v / b > 0 ==> Digits(v / b, b) != [];
    }
  }

  lemma DivModOf(q: nat, b: nat, r: nat)
    requires r < b
    ensures (q * b + r) / b == q && (q * b + r) % b == r
  {
    var n := q * b + r;
    var q', r' := n / b, n % b;
    assert n == q' * b + r';
    if q' < q { MulMono(q' + 1, q, b, b); }
    if q < q' { MulMono(q + 1, q', b, b); }
  }

  /** A numeral without leading zeros is the numeral of its value. */
  lemma {:induction false} DigitsUnique(s: seq<nat>, b: nat)
    requires b >= 2 && InBase(s, b) && Minimal(s)
    ensures Digits(Value(s, b), b) == s
  {
    if s != [] {
      var t, d := s[..|s| - 1], s[|s| - 1];
      DigitsUnique(t, b);
      DivModOf(Value(t, b), b, d);
      LeadingDigit(s, b);
      PowPositive(b, |s| - 1);
      assert s == t + [d];
    }
  }

  /** Stripping leading zeros from a numeral leaves the minimal one. */
  lemma StripZeros(s: seq<nat>, k: nat, b: nat)
    requires b >= 2 && InBase(s, b) && k <= |s| && (forall i :: 0 <= i < k ==> s[i] == 0) && Minimal(s[k..])
    ensures s[k..] == Digits(Value(s, b), b)
  {
    assert s == Zeros(k) + s[k..];
    ZerosValue(k, s[k..], b);
    DigitsUnique(s[k..], b);
  }
}
