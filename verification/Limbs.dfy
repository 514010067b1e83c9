/**
 * Numbers as sequences of 32-bit limbs, the lowest first, at the value level.
 */
module Limbs {
  import opened Arithmetic
  import opened Radix

  const BASE: int := TWO_32

  predicate AreLimbs(s: seq<nat>) {
    forall i :: 0 <= i < |s| ==> s[i] < BASE
  }

  /** The weight of limb `i`. */
  function Weight(i: nat): (w: nat)
    ensures w > 0
  {
    PowPositive(BASE, i);
    Pow(BASE, i)
  }

  lemma WeightNext(i: nat)
    ensures Weight(i + 1) == BASE * Weight(i) && Weight(0) == 1
  {
  }

  lemma WeightAdd(i: nat, j: nat)
    ensures Weight(i + j) == Weight(i) * Weight(j)
  {
    PowAdd(BASE, i, j);
  }

  /** The value of the first `n` limbs. */
  function Low(s: seq<nat>, n: nat): nat
    requires n <= |s|
  {
    if n == 0 then 0 else Low(s, n - 1) + s[n - 1] * Weight(n - 1)
  }

  function Value(s: seq<nat>): nat {
    Low(s, |s|)
  }

  lemma LowNext(s: seq<nat>, n: nat)
    requires n < |s|
    ensures Low(s, n + 1) == Low(s, n) + s[n] * Weight(n) && Low(s, 0) == 0
  {
  }

  lemma {:induction false} LowBound(s: seq<nat>, n: nat)
    requires n <= |s| && AreLimbs(s)
    ensures Low(s, n) < Weight(n)
  {
    if n > 0 {
      LowBound(s, n - 1);
      var w := Weight(n - 1);
      TimesMonotone(s[n - 1], w, BASE - 1, w);
      WeightNext(n - 1);
    }
  }

  lemma {:induction false} LowSame(s: seq<nat>, t: seq<nat>, n: nat)
    requires n <= |s| && n <= |t| && forall i :: 0 <= i < n ==> s[i] == t[i]
    ensures Low(s, n) == Low(t, n)
  {
    if n > 0 {
      LowSame(s, t, n - 1);
    }
  }

  /** Replacing a limb. */
  lemma {:induction false} LowUpdate(s: seq<nat>, j: nat, x: nat, n: nat)
    requires j < n <= |s|
    ensures Low(s[j := x], n) == Low(s, n) + (x - s[j]) * Weight(j)
  {
    var t := s[j := x];
    if j < n - 1 {
      LowUpdate(s, j, x, n - 1);
    } else {
      LowSame(s, t, j);
      assert x * Weight(j) == (x - s[j]) * Weight(j) + s[j] * Weight(j);
    }
  }

  lemma {:induction false} LowZeros(s: seq<nat>, n: nat)
    requires n <= |s| && forall i :: 0 <= i < n ==> s[i] == 0
    ensures Low(s, n) == 0
  {
    if n > 0 {
      LowZeros(s, n - 1);
    }
  }

  /** Splitting a value at limb `m`. */
  lemma {:induction false} LowSplit(s: seq<nat>, m: nat, n: nat)
    requires m <= n <= |s|
    ensures Low(s, n) == Low(s, m) + Weight(m) * Low(s[m..], n - m)
  {
    if m < n {
      LowSplit(s, m, n - 1);
      LowNext(s, n - 1);
      LowNext(s[m..], n - 1 - m);
      WeightAdd(m, n - 1 - m);
      hide Low, Weight;
      SplitStep(Weight(m), Low(s[m..], n - 1 - m), s[n - 1], Weight(n - 1 - m));
    } else {
      assert Low(s[m..], 0) == 0;
    }
  }

  lemma SplitStep(w: int, v: int, x: int, y: int)
    ensures w * v + x * (w * y) == w * (v + x * y)
  {
    Associative(w, x, y);
    Associative(x, w, y);
    assert w * x == x * w;
  }

  /** A number reduced to the range of its limbs. */
  lemma Reduced(v: int, w: nat, q: int, x: int)
    requires w > 0 && 0 <= v < w && v + q * w == x
    ensures v == x % w
  {
    DivUnique(x, w, q, v);
  }

  lemma {:induction false} WeightIsPow2(i: nat)
    ensures Weight(i) == Pow2(32 * i)
  {
    Pow2Of32();
    if i > 0 {
      WeightIsPow2(i - 1);
      WeightNext(i - 1);
      Pow2Add(32, 32 * (i - 1));
    } else {
      WeightNext(0);
    }
  }
}
