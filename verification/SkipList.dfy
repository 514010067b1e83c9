/**
 * The heights that skip pointers lead to, and how many steps a walk along them
 * takes.
 */
module SkipList {
  /** Bitwise conjunction of natural numbers. */
  function And(x: nat, y: nat): (r: nat)
    ensures r <= x && r <= y
  {
    if x == 0 || y == 0 then 0 else 2 * And(x / 2, y / 2) + (if x % 2 == 1 && y % 2 == 1 then 1 else 0)
  }

  /** Turns the lowest one bit into a zero. */
  function InvertLowestOne(n: nat): nat {
    if n == 0 then 0 else And(n, n - 1)
  }

  /** The height that the skip pointer of a block leads to: always a lower one, but for genesis. */
  function GetSkipHeight(height: int): (h: nat)
    ensures height > 0 ==> h < height
  {
    if height < 2 then 0
    else if height % 2 == 1 then InvertLowestOne(InvertLowestOne(height - 1)) + 1
    else InvertLowestOne(height)
  }

  // The walk.

  /** Whether a walk to height `h` follows the skip pointer at height `w`. */
  predicate Follows(w: nat, h: nat)
    requires h < w
  {
    var skip, skipPrev := GetSkipHeight(w), GetSkipHeight(w - 1);
    skip == h || (skip > h && !(skipPrev < skip - 2 && skipPrev >= h))
  }

  function Next(w: nat, h: nat): (r: nat)
    requires h < w
    ensures h <= r < w
  {
    if Follows(w, h) then GetSkipHeight(w) else w - 1
  }

  /** The number of steps from height `w` down to `h`. */
  function Steps(w: nat, h: nat): nat
    requires h <= w
  {
    if w == h then 0 else 1 + Steps(Next(w, h), h)
  }

  lemma StepsNext(w: nat, h: nat)
    requires h < w
    ensures Steps(w, h) == 1 + Steps(Next(w, h), h)
    ensures var skip, skipPrev := GetSkipHeight(w), GetSkipHeight(w - 1);
      Next(w, h) == if skip == h || (skip > h && !(skipPrev < skip - 2 && skipPrev >= h)) then skip else w - 1
  {
  }

  // Bits of a height.

  /** How many one bits a number has. */
  function Ones(n: nat): nat {
    if n == 0 then 0 else n % 2 + Ones(n / 2)
  }

  function BitLength(n: nat): nat {
    if n == 0 then 0 else 1 + BitLength(n / 2)
  }

  /** The number of low bits in which two numbers may differ. */
  function Differing(w: nat, h: nat): nat {
    if w == h then 0 else 1 + Differing(w / 2, h / 2)
  }

  lemma InvertEven(n: nat)
    ensures InvertLowestOne(2 * n) == 2 * InvertLowestOne(n)
  {
    if n > 0 {
      assert 2 * n / 2 == n && (2 * n - 1) / 2 == n - 1;
      if n == 1 {
        assert And(2, 1) == 0;
      }
    }
  }

  lemma InvertOdd(n: nat)
    ensures InvertLowestOne(2 * n + 1) == 2 * n
  {
    if n > 0 {
      AndSelf(n);
      assert (2 * n + 1) / 2 == n && 2 * n / 2 == n;
    }
  }

  lemma {:induction false} AndSelf(n: nat)
    ensures And(n, n) == n
  {
    if n > 0 {
      AndSelf(n / 2);
    }
  }

  /** Inverting the lowest one removes one bit. */
  lemma {:induction false} InvertOnes(n: nat)
    requires n > 0
    ensures Ones(InvertLowestOne(n)) == Ones(n) - 1 && InvertLowestOne(n) < n
    ensures n % 2 == 0 ==> InvertLowestOne(n) % 2 == 0
  {
    hide InvertLowestOne;
    var m := n / 2;
    if n % 2 == 1 {
      InvertOdd(m);
      assert Ones(2 * m) == Ones(m);
    } else {
      InvertEven(m);
      InvertOnes(m);
      assert Ones(2 * InvertLowestOne(m)) == Ones(InvertLowestOne(m));
    }
  }

  lemma {:induction false} OnesBound(n: nat)
    ensures Ones(n) <= BitLength(n)
  {
    if n > 0 {
      OnesBound(n / 2);
    }
  }

  lemma {:induction false} LengthMonotone(m: nat, n: nat)
    requires m <= n
    ensures BitLength(m) <= BitLength(n)
  {
    if m > 0 {
      LengthMonotone(m / 2, n / 2);
    }
  }

  lemma {:induction false} DifferingBound(w: nat, h: nat)
    requires h <= w
    ensures Differing(w, h) <= BitLength(w)
  {
    if h < w {
      DifferingBound(w / 2, h / 2);
    }
  }

  /** Coming closer from above leaves no more bits to differ in. */
  lemma {:induction false} DifferingMonotone(w: nat, v: nat, h: nat)
    requires h <= v <= w
    ensures Differing(v, h) <= Differing(w, h)
    decreases w
  {
    if h < v {
      DifferingMonotone(w / 2, v / 2, h / 2);
    }
  }

  /** One less, when inverting the lowest one would go too far, leaves fewer. */
  lemma {:induction false} DifferingLess(w: nat, h: nat)
    requires InvertLowestOne(w) <= h < w
    ensures Differing(w - 1, h) < Differing(w, h)
    decreases w
  {
    hide InvertLowestOne;
    var m := w / 2;
    if w % 2 == 1 {
      InvertOdd(m);
      assert w == 2 * m + 1 && h == w - 1;
      assert Differing(w - 1, h) == 0;
    } else {
      InvertEven(m);
      assert w == 2 * m && (w - 1) / 2 == m - 1;
      DifferingLess(m, h / 2);
      assert Differing(w, h) == 1 + Differing(m, h / 2);
      if w - 1 != h {
        assert Differing(w - 1, h) == 1 + Differing(m - 1, h / 2);
      }
    }
  }

  // Skips remove bits.

  /** A skip from an odd height leads to an odd one with fewer bits. */
  lemma OddSkip(w: nat)
    requires w % 2 == 1 && w >= 3
    ensures Ones(GetSkipHeight(w)) < Ones(w) && Ones(w - 1) == Ones(w) - 1
    ensures GetSkipHeight(w - 1) >= GetSkipHeight(w) - 1
  {
    var m := w / 2;
    assert w == 2 * m + 1;
    hide InvertLowestOne, Ones, GetSkipHeight;
    LastBit(m);
    SkipOfOdd(m);
    InvertOnes(2 * m);
    var v := InvertLowestOne(2 * m);
    OneMoreInversion(v);
    if v > 0 {
      InvertOnes(v);
    } else {
      NothingToInvert();
      PositiveOnes(m);
    }
  }

  lemma LastBit(m: nat)
    ensures Ones(2 * m + 1) == 1 + Ones(m) && Ones(2 * m) == Ones(m) && 2 * m % 2 == 0
  {
    assert (2 * m + 1) / 2 == m && 2 * m / 2 == m;
  }

  lemma SkipOfOdd(m: nat)
    requires m > 0
    ensures GetSkipHeight(2 * m + 1) == InvertLowestOne(InvertLowestOne(2 * m)) + 1
    ensures GetSkipHeight(2 * m) == InvertLowestOne(2 * m)
  {
    hide InvertLowestOne;
  }

  lemma NothingToInvert()
    ensures InvertLowestOne(0) == 0
  {
  }

  /** A walk follows every skip from an odd height that does not go too far. */
  lemma OddFollows(w: nat, h: nat)
    requires w % 2 == 1 && h < w && GetSkipHeight(w) >= h
    ensures Follows(w, h)
  {
    hide InvertLowestOne;
    if w >= 3 {
      OddSkip(w);
    }
  }

  lemma TwoModFour(n: nat)
    ensures InvertLowestOne(4 * n + 2) == 4 * n
  {
    InvertOdd(n);
    InvertEven(2 * n + 1);
    assert 4 * n + 2 == 2 * (2 * n + 1);
  }

  lemma FourModEight(n: nat)
    ensures InvertLowestOne(8 * n + 4) == 8 * n
  {
    hide InvertLowestOne;
    TwoModFour(n);
    InvertEven(4 * n + 2);
    assert 8 * n + 4 == 2 * (4 * n + 2);
  }

  lemma ZeroModEight(n: nat)
    requires n > 0
    ensures InvertLowestOne(8 * n) <= 8 * (n - 1)
  {
    hide InvertLowestOne;
    InvertEven(4 * n);
    InvertEven(2 * n);
    InvertEven(n);
    InvertOnes(n);
    assert 8 * n == 2 * (4 * n) && 4 * n == 2 * (2 * n);
  }

  lemma SkipBelow(w: nat)
    requires w % 2 == 0 && w >= 4
    ensures GetSkipHeight(w - 1) == InvertLowestOne(InvertLowestOne(w - 2)) + 1
    ensures GetSkipHeight(w) == InvertLowestOne(w)
  {
    hide InvertLowestOne;
  }

  /** The bits left after one more inversion, and a one at the end. */
  lemma OneMoreInversion(v: nat)
    requires v % 2 == 0
    ensures var u := InvertLowestOne(v); Ones(u + 1) <= (if v > 0 then Ones(v) else 1) && u % 2 == 0
  {
    hide InvertLowestOne;
    if v > 0 {
      InvertOnes(v);
    } else {
      NothingToInvert();
    }
    var u := InvertLowestOne(v);
    assert Ones(u + 1) == 1 + Ones(u);
  }

  lemma InvertTwo(w: nat)
    requires w % 4 == 2
    ensures InvertLowestOne(w) == w - 2
  {
    hide InvertLowestOne;
    TwoModFour(w / 4);
  }

  lemma InvertFour(w: nat)
    requires w % 8 == 4
    ensures InvertLowestOne(w) == w - 4 && InvertLowestOne(w - 2) == w - 4
  {
    hide InvertLowestOne;
    FourModEight(w / 8);
    InvertTwo(w - 2);
  }

  lemma InvertEight(w: nat)
    requires w % 8 == 0 && w > 0
    ensures InvertLowestOne(InvertLowestOne(w - 2)) >= InvertLowestOne(w)
  {
    hide InvertLowestOne;
    InvertTwo(w - 2);
    InvertFour(w - 4);
    ZeroModEight(w / 8);
  }

  /** Where the skip of an even height is better taken from the height below it, that skip removes a bit as well. */
  lemma BetterBelow(w: nat)
    requires w % 2 == 0 && w >= 2 && GetSkipHeight(w - 1) < GetSkipHeight(w) - 2
    ensures Ones(GetSkipHeight(w - 1)) < Ones(w)
  {
    hide *;
    SkipBelow(w);
    EvenResidue(w);
    if w % 8 == 0 {
      InvertEight(w);
    } else if w % 8 == 4 {
      InvertFour(w);
      FewerFour(w);
    } else {
      FewerTwo(w);
    }
  }

  lemma EvenResidue(w: nat)
    requires w % 2 == 0
    ensures w % 4 == 2 || w % 8 == 4 || w % 8 == 0
  {
    var n, r := w / 8, w % 8;
    EvenRest(4 * n, r);
    FourRest(2 * n, r);
  }

  lemma EvenRest(m: nat, r: nat)
    ensures (2 * m + r) % 2 == r % 2
  {
  }

  lemma FourRest(m: nat, r: nat)
    ensures (4 * m + r) % 4 == r % 4
  {
  }

  lemma TwoIsEven(w: nat)
    requires w % 4 == 2
    ensures w % 2 == 0
  {
    EvenRest(2 * (w / 4) + 1, 0);
  }

  lemma FewerTwo(w: nat)
    requires w % 4 == 2 && w > 2
    ensures Ones(InvertLowestOne(InvertLowestOne(w - 2)) + 1) < Ones(w)
  {
    hide *;
    TwoIsEven(w);
    InvertTwo(w);
    ThreeInversions(w);
  }

  lemma FewerFour(w: nat)
    requires w % 8 == 4 && w > 4
    ensures Ones(InvertLowestOne(InvertLowestOne(w - 2)) + 1) < Ones(w)
  {
    hide *;
    InvertFour(w);
    InvertOnes(w);
    OneMoreInversion(w - 4);
  }

  lemma ThreeInversions(w: nat)
    requires w % 2 == 0 && w > 0 && InvertLowestOne(w) > 0
    ensures Ones(InvertLowestOne(InvertLowestOne(InvertLowestOne(w))) + 1) < Ones(w)
  {
    hide InvertLowestOne, Ones;
    InvertOnes(w);
    var i := InvertLowestOne(w);
    InvertOnes(i);
    var j := InvertLowestOne(i);
    OneMoreInversion(j);
    PositiveOnes(i);
  }

  lemma PositiveOnes(n: nat)
    requires n > 0
    ensures Ones(n) > 0
  {
  }

  // The bound.

  /** At most so many steps lead from a height to any other below it. */
  function MaxSteps(w: nat): nat {
    var n := BitLength(w);
    n * (2 * n + 1) + 2 * n
  }

  ghost function Potential(w: nat, h: nat, n: nat): nat {
    Differing(w, h) * (2 * n + 1) + 2 * Ones(w)
  }

  lemma {:induction false} StepsPotential(w: nat, h: nat, n: nat)
    requires h <= w && BitLength(w) <= n
    ensures Steps(w, h) <= Potential(w, h, n)
    decreases w
  {
    hide GetSkipHeight, InvertLowestOne, Follows, Next, Ones, Differing, BitLength;
    if w > h {
      StepsNext(w, h);
      var v := Next(w, h);
      LengthMonotone(v, w);
      DifferingMonotone(w, v, h);
      if w % 2 == 1 {
        StepsPotential(v, h, n);
        OddStep(w, h);
        Drops(w, v, h, n);
      } else {
        EvenStep(w, h, n);
      }
    }
  }

  /** Fewer bits and no more differing ones. */
  lemma Drops(w: nat, v: nat, h: nat, n: nat)
    requires Ones(v) < Ones(w) && Differing(v, h) <= Differing(w, h)
    ensures Potential(v, h, n) + 2 <= Potential(w, h, n)
  {
    hide Ones, Differing;
    Monotone(Differing(v, h), Differing(w, h), 2 * n + 1);
  }

  lemma Monotone(a: nat, b: nat, c: nat)
    requires a <= b
    ensures a * c <= b * c
  {
  }

  lemma OddStep(w: nat, h: nat)
    requires h < w && w % 2 == 1
    ensures Ones(Next(w, h)) < Ones(w)
  {
    if w >= 3 {
      hide InvertLowestOne, GetSkipHeight;
      OddSkip(w);
    } else {
      assert Ones(0) == 0 && Ones(1) == 1;
    }
  }

  lemma EvenStep(w: nat, h: nat, n: nat)
    requires h < w && w % 2 == 0 && BitLength(w) <= n
    ensures Steps(w, h) <= Potential(w, h, n)
    decreases w, 0
  {
    hide InvertLowestOne, Ones, Differing, BitLength, Steps;
    var skip := GetSkipHeight(w);
    StepsNext(w, h);
    InvertOnes(w);
    LengthMonotone(w - 1, w);
    if skip >= h && Follows(w, h) {
      LengthMonotone(skip, w);
      DifferingMonotone(w, skip, h);
      StepsPotential(skip, h, n);
      Drops(w, skip, h, n);
    } else if skip < h {
      StepsPotential(w - 1, h, n);
      DifferingLess(w, h);
      OnesBound(w - 1);
      NextPhase(w, h, n);
    } else {
      var better := GetSkipHeight(w - 1);
      BetterBelow(w);
      OddFollows(w - 1, h);
      StepsNext(w - 1, h);
      LengthMonotone(better, w);
      DifferingMonotone(w, better, h);
      StepsPotential(better, h, n);
      Drops(w, better, h, n);
    }
  }

  lemma NextPhase(w: nat, h: nat, n: nat)
    requires h < w && Differing(w - 1, h) < Differing(w, h) && Ones(w - 1) <= n
    ensures Potential(w - 1, h, n) + 1 <= Potential(w, h, n)
  {
    hide Ones, Differing;
    Monotone(Differing(w - 1, h) + 1, Differing(w, h), 2 * n + 1);
  }

  /** A walk from height `w` takes a number of steps quadratic in the length of `w`, however far it goes. */
  lemma StepsBound(w: nat, h: nat)
    requires h <= w
    ensures Steps(w, h) <= MaxSteps(w)
  {
    hide Ones, Differing, BitLength, Steps;
    var n := BitLength(w);
    StepsPotential(w, h, n);
    DifferingBound(w, h);
    OnesBound(w);
    Monotone(Differing(w, h), n, 2 * n + 1);
  }
}
