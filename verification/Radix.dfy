/**
 * Numbers as digit sequences, the highest digit first: values, digits without
 * leading zeros, and the in-place multiply-and-add that radix conversion is
 * made of.
 */
module Radix {
  import opened Arithmetic

  function Pow(b: nat, n: nat): nat {
    if n == 0 then 1 else b * Pow(b, n - 1)
  }

  lemma {:induction false} PowPositive(b: nat, n: nat)
    requires b > 0
    ensures Pow(b, n) > 0
  {
    if n > 0 {
      PowPositive(b, n - 1);
    }
  }

  lemma {:induction false} PowAdd(b: nat, m: nat, n: nat)
    ensures Pow(b, m + n) == Pow(b, m) * Pow(b, n)
  {
    if m > 0 {
      PowAdd(b, m - 1, n);
      Associative(b, Pow(b, m - 1), Pow(b, n));
    }
  }

  lemma {:induction false} PowPow(b: nat, m: nat, n: nat)
    ensures Pow(Pow(b, m), n) == Pow(b, m * n)
  {
    if n > 0 {
      PowPow(b, m, n - 1);
      PowAdd(b, m, m * (n - 1));
      assert m + m * (n - 1) == m * n;
    } else {
      assert m * n == 0;
    }
  }

  lemma {:induction false} PowMonotone(a: nat, b: nat, n: nat)
    requires a <= b
    ensures Pow(a, n) <= Pow(b, n)
  {
    if n > 0 {
      PowMonotone(a, b, n - 1);
      TimesMonotone(a, Pow(a, n - 1), b, Pow(b, n - 1));
    }
  }

  lemma {:induction false} PowStrict(a: nat, b: nat, n: nat)
    requires a < b && n > 0
    ensures Pow(a, n) < Pow(b, n)
  {
    PowMonotone(a, b, n - 1);
    PowPositive(b, n - 1);
    TimesMonotone(a, Pow(a, n - 1), a, Pow(b, n - 1));
    assert a * Pow(b, n - 1) < b * Pow(b, n - 1);
  }

  lemma PowExponent(b: nat, m: nat, n: nat)
    requires b > 0 && m <= n
    ensures Pow(b, m) <= Pow(b, n)
  {
    PowAdd(b, m, n - m);
    PowPositive(b, n - m);
    TimesMonotone(Pow(b, m), 1, Pow(b, m), Pow(b, n - m));
  }

  /**
   * One comparison of powers settles all: if `a^k <= b^l`, then `n` digits of base `a` fit in `s`
   * digits of base `b` whenever `k * s >= l * n`.
   */
  lemma EnoughDigits(a: nat, b: nat, k: nat, l: nat, n: nat, s: nat)
    requires b > 0 && k > 0 && Pow(a, k) <= Pow(b, l) && k * s >= l * n
    ensures Pow(a, n) <= Pow(b, s)
  {
    hide Pow;
    RaisedLeft(a, b, k, l, n);
    RaisedRight(b, k, s, l * n);
    if Pow(a, n) > Pow(b, s) {
      PowStrict(Pow(b, s), Pow(a, n), k);
    }
  }

  lemma RaisedLeft(a: nat, b: nat, k: nat, l: nat, n: nat)
    requires Pow(a, k) <= Pow(b, l)
    ensures Pow(Pow(a, n), k) <= Pow(b, l * n)
  {
    hide Pow;
    PowPow(a, k, n);
    PowPow(a, n, k);
    assert n * k == k * n;
    PowPow(b, l, n);
    PowMonotone(Pow(a, k), Pow(b, l), n);
  }

  lemma RaisedRight(b: nat, k: nat, s: nat, m: nat)
    requires b > 0 && m <= k * s
    ensures Pow(b, m) <= Pow(Pow(b, s), k)
  {
    hide Pow;
    PowPow(b, s, k);
    assert s * k == k * s;
    PowExponent(b, m, k * s);
  }

  // Values of digit sequences.

  predicate AreDigits(b: nat, s: seq<nat>) {
    forall i :: 0 <= i < |s| ==> s[i] < b
  }

  function Val(b: nat, s: seq<nat>): nat {
    if s == [] then 0 else Val(b, s[..|s| - 1]) * b + s[|s| - 1]
  }

  lemma ValAppend(b: nat, s: seq<nat>, d: nat)
    ensures Val(b, s + [d]) == Val(b, s) * b + d
  {
    assert (s + [d])[..|s|] == s;
  }

  lemma Regroup(d: int, p: int, v: int, b: int)
    ensures (d * p + v) * b == d * (b * p) + v * b
  {
    Associative(d, p, b);
    assert p * b == b * p;
  }

  lemma {:induction false} ValPrepend(b: nat, d: nat, s: seq<nat>)
    ensures Val(b, [d] + s) == d * Pow(b, |s|) + Val(b, s)
  {
    if s == [] {
      assert [d] + s == [d] && [d][..0] == [];
    } else {
      var n := |s| - 1;
      ValPrepend(b, d, s[..n]);
      assert ([d] + s)[..n + 1] == [d] + s[..n];
      var p, v := Pow(b, n), Val(b, s[..n]);
      Regroup(d, p, v, b);
    }
  }

  lemma {:induction false} ValBound(b: nat, s: seq<nat>)
    requires AreDigits(b, s)
    ensures Val(b, s) < Pow(b, |s|)
  {
    if s != [] {
      var n := |s| - 1;
      ValBound(b, s[..n]);
      var p, v := Pow(b, n), Val(b, s[..n]);
      assert v * b + s[n] < (v + 1) * b;
      TimesMonotone(v + 1, b, p, b);
    }
  }

  lemma {:induction false} ValZeros(b: nat, s: seq<nat>)
    requires forall i :: 0 <= i < |s| ==> s[i] == 0
    ensures Val(b, s) == 0
  {
    if s != [] {
      ValZeros(b, s[..|s| - 1]);
    }
  }

  /** Leading zeros do not count. */
  lemma {:induction false} ValDropZeros(b: nat, s: seq<nat>, k: nat)
    requires k <= |s| && forall i :: 0 <= i < k ==> s[i] == 0
    ensures Val(b, s) == Val(b, s[k..])
  {
    if k < |s| {
      var n := |s| - 1;
      ValDropZeros(b, s[..n], k);
      assert s[k..][..n - k] == s[..n][k..];
    } else {
      ValZeros(b, s);
      assert s[k..] == [];
    }
  }

  /** The digits of a number, without leading zeros. */
  function Digits(b: nat, v: nat): (s: seq<nat>)
    requires b >= 2
    ensures AreDigits(b, s) && (s != [] ==> s[0] != 0)
  {
    if v == 0 then [] else Digits(b, v / b) + [v % b]
  }

  lemma DigitsNext(b: nat, v: nat)
    requires b >= 2 && v > 0
    ensures 0 <= v / b < v && 0 <= v % b && Digits(b, v) == Digits(b, v / b) + [v % b]
  {
  }

  lemma {:induction false} ValDigits(b: nat, v: nat)
    requires b >= 2
    ensures Val(b, Digits(b, v)) == v
  {
    if v > 0 {
      DigitsNext(b, v);
      DivMod(v, b);
      var q, r := v / b, v % b;
      hide Digits, Val;
      ValDigits(b, q);
      ValAppend(b, Digits(b, q), r);
    }
  }

  /** A digit sequence that does not start with zero is the digits of its value. */
  lemma {:induction false} DigitsUnique(b: nat, s: seq<nat>)
    requires b >= 2 && AreDigits(b, s) && (s != [] ==> s[0] != 0)
    ensures Digits(b, Val(b, s)) == s
  {
    if s != [] {
      var n := |s| - 1;
      DigitsUnique(b, s[..n]);
      var v := Val(b, s[..n]);
      LastDigit(b, v, s[n]);
      if v * b + s[n] == 0 {
        ValPositive(b, s);
      }
      assert s == s[..n] + [s[n]];
    }
  }

  lemma LastDigit(b: nat, v: nat, d: nat)
    requires d < b
    ensures (v * b + d) / b == v && (v * b + d) % b == d
  {
    DivUnique(v * b + d, b, v, d);
  }

  lemma {:induction false} ValPositive(b: nat, s: seq<nat>)
    requires b > 0 && s != [] && s[0] != 0
    ensures Val(b, s) > 0
  {
    var n := |s| - 1;
    if n > 0 {
      ValPositive(b, s[..n]);
      assert Val(b, s[..n]) * b > 0;
    }
  }

  // Multiply and add, in place.

  /** One digit of multiply-and-add: the carry takes part in the digit and moves on. */
  lemma CarryStep(b: nat, m: nat, c: nat, p: nat, low: nat, was: nat, carry: nat, d: nat)
    requires b > 0 && low + carry * p == was * m + c
    ensures var t := carry + m * d;
      (t % b) * p + low + (t / b) * (b * p) == (d * p + was) * m + c
  {
    var t := carry + m * d;
    DivMod(t, b);
    Regrouped(t / b, b, p, t % b);
    assert (t / b * b + t % b) * p == t * p;
    assert t * p == carry * p + m * d * p;
    assert (d * p + was) * m == m * d * p + was * m;
  }

  lemma Regrouped(q: int, b: int, p: int, r: int)
    ensures r * p + q * (b * p) == (q * b + r) * p
  {
    Associative(q, b, p);
  }

  lemma CarryGone(low: nat, carry: nat, p: nat, v: nat)
    requires low + carry * p == v && v < p
    ensures carry == 0
  {
    assert carry >= 1 ==> carry * p >= p;
  }

  /** The last digits after multiply-and-add, the same digits before, and the carry. */
  ghost predicate Carried(b: nat, m: nat, c: nat, low: seq<nat>, was: seq<nat>, carry: nat) {
    |low| == |was| && Val(b, low) + carry * Pow(b, |low|) == Val(b, was) * m + c
  }

  /** The digit that stays and the carry that moves on. */
  function Split(b: nat, m: nat, carry: nat, d: nat): (r: (nat, nat))
    requires b > 0
    ensures r.0 < b
  {
    var t := carry + m * d;
    DivMod(t, b);
    QuotientPositive(t, b);
    (t % b, t / b)
  }

  lemma CarriedStart(b: nat, m: nat, c: nat)
    ensures Carried(b, m, c, [], [], c)
  {
    ValNone(b);
  }

  lemma CarriedNext(b: nat, m: nat, c: nat, low: seq<nat>, was: seq<nat>, carry: nat, d: nat)
    requires b > 0 && Carried(b, m, c, low, was, carry)
    ensures var (r, q) := Split(b, m, carry, d); Carried(b, m, c, [r] + low, [d] + was, q)
  {
    var (r, q) := Split(b, m, carry, d);
    CarryStep(b, m, c, Pow(b, |low|), Val(b, low), Val(b, was), carry, d);
    PowNext(b, |low|);
    ValPrepend(b, r, low);
    ValPrepend(b, d, was);
  }

  /** At the end there is no carry, because the value fits. */
  lemma CarriedEnd(b: nat, m: nat, c: nat, a: seq<nat>, was: seq<nat>, k: nat, carry: nat)
    requires k <= |a| && |was| == |a| && Carried(b, m, c, a[k..], was[k..], carry)
    requires forall j :: 0 <= j < k ==> a[j] == 0 && was[j] == 0
    requires Val(b, was) * m + c < Pow(b, |a|) && (carry == 0 || k == 0)
    ensures carry == 0 && Val(b, a) == Val(b, was) * m + c
  {
    hide Val, Pow;
    ValDropZeros(b, was, k);
    ValDropZeros(b, a, k);
    if carry != 0 {
      CarryGone(Val(b, a[k..]), carry, Pow(b, |a|), Val(b, was) * m + c);
    }
  }

  /** The value of a buffer becomes `value * m + c`; only its last `length` digits can be non-zero. */
  method MulAdd(a: array<nat>, b: nat, m: nat, c: nat, length: nat) returns (n: nat)
    requires b >= 2 && AreDigits(b, a[..]) && length <= a.Length
    requires forall i :: 0 <= i < a.Length - length ==> a[i] == 0
    requires Val(b, a[..]) * m + c < Pow(b, a.Length)
    modifies a
    ensures AreDigits(b, a[..]) && n <= a.Length
    ensures forall i :: 0 <= i < a.Length - n ==> a[i] == 0
    ensures Val(b, a[..]) == old(Val(b, a[..])) * m + c
  {
    hide Val, Pow, Carried, Split;
    ghost var was := a[..];
    var carry, i := c, 0;
    CarriedStart(b, m, c);
    assert was[a.Length..] == [] && a[a.Length..] == [];
    while (carry != 0 || i < length) && i < a.Length
      invariant 0 <= i <= a.Length
      invariant forall j :: 0 <= j < a.Length - i ==> a[j] == was[j]
      invariant AreDigits(b, a[..])
      invariant Carried(b, m, c, a[a.Length - i..], was[a.Length - i..], carry)
    {
      var k := a.Length - 1 - i;
      ghost var low := a[k + 1..];
      CarriedNext(b, m, c, low, was[k + 1..], carry, a[k]);
      var (digit, next) := Split(b, m, carry, a[k]);
      a[k] := digit;
      carry := next;
      assert a[k..] == [digit] + low && was[k..] == [was[k]] + was[k + 1..];
      i := i + 1;
    }
    assert a[..][a.Length - i..] == a[a.Length - i..];
    CarriedEnd(b, m, c, a[..], was, a.Length - i, carry);
    assert carry == 0;
    n := i;
  }

  lemma ValNone(b: nat)
    ensures Val(b, []) == 0 && Pow(b, 0) == 1
  {
  }

  lemma PowNext(b: nat, n: nat)
    ensures Pow(b, n + 1) == b * Pow(b, n)
  {
  }

  lemma QuotientPositive(x: nat, d: nat)
    requires d > 0
    ensures x / d >= 0
  {
  }
}
