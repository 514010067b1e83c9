/** Definitions that several components share. */
module Common {

  const MAX_UINT16: int := 0xFFFF

  /** The largest length that is read. */
  const MAX_SIZE: int := 0x0200_0000

  const MAX_BLOCK_WEIGHT: int := 8_000_000

  datatype Option<+T> = None | Some(value: T)

  function Min(x: int, y: int): int { if x < y then x else y }

  function Max(x: int, y: int): int { if x < y then y else x }

  lemma NonEmpty<T>(s: set<T>)
    requires s != {}
    ensures exists x :: x in s
  {
  }

  lemma AnyOf<T>(s: set<T>) returns (x: T)
    requires s != {}
    ensures x in s
  {
    NonEmpty(s);
    x :| x in s;
  }

  /** Some element of a non-empty set. */
  method Pick<T(==)>(s: set<T>) returns (x: T)
    requires s != {}
    ensures x in s
  {
    NonEmpty(s);
    x :| x in s;
  }

  lemma ProperSubsetSize<T>(s: set<T>, t: set<T>, x: T)
    requires s <= t && x in t && x !in s
    ensures |s| < |t|
  {
    SubsetSize(s, t - {x});
  }

  lemma {:induction false} SubsetSize<T>(s: set<T>, t: set<T>)
    requires s <= t
    ensures |s| <= |t|
    decreases s
  {
    if s != {} {
      NonEmpty(s);
      var x :| x in s;
      SubsetSize(s - {x}, t - {x});
    }
  }

  // Sums over finite sets.

  ghost function Sum<T>(f: T -> nat, s: set<T>): nat {
    if s == {} then 0
    else
      assert exists x :: x in s by { NonEmpty(s); }
      var x :| x in s;
      f(x) + Sum(f, s - {x})
  }

  lemma {:induction false} SumRemove<T>(f: T -> nat, s: set<T>, x: T)
    requires x in s
    ensures Sum(f, s) == f(x) + Sum(f, s - {x})
    decreases s
  {
    NonEmpty(s);
    var y :| y in s && Sum(f, s) == f(y) + Sum(f, s - {y});
    if y != x {
      SumRemove(f, s - {y}, x);
      SumRemove(f, s - {x}, y);
      assert s - {y} - {x} == s - {x} - {y};
    }
  }

  lemma SumAdd<T>(f: T -> nat, s: set<T>, x: T)
    requires x !in s
    ensures Sum(f, s + {x}) == Sum(f, s) + f(x)
  {
    SumRemove(f, s + {x}, x);
    assert s + {x} - {x} == s;
  }

  lemma {:induction false} SumMonotone<T>(f: T -> nat, s: set<T>, t: set<T>)
    requires s <= t
    ensures Sum(f, s) <= Sum(f, t)
    decreases s
  {
    if s != {} {
      NonEmpty(s);
      var x :| x in s;
      SumRemove(f, s, x);
      SumRemove(f, t, x);
      SumMonotone(f, s - {x}, t - {x});
    }
  }

  lemma {:induction false} SumUnion<T>(f: T -> nat, s: set<T>, t: set<T>)
    requires s !! t
    ensures Sum(f, s + t) == Sum(f, s) + Sum(f, t)
    decreases t
  {
    if t == {} {
      assert s + t == s;
    } else {
      NonEmpty(t);
      var x :| x in t;
      SumRemove(f, t, x);
      SumUnion(f, s, t - {x});
      SumAdd(f, s + (t - {x}), x);
      assert s + t == s + (t - {x}) + {x};
    }
  }

  lemma {:induction false} SumCongruent<T>(f: T -> nat, g: T -> nat, s: set<T>)
    requires forall x :: x in s ==> f(x) == g(x)
    ensures Sum(f, s) == Sum(g, s)
    decreases s
  {
    if s != {} {
      NonEmpty(s);
      var x :| x in s;
      SumRemove(f, s, x);
      SumRemove(g, s, x);
      SumCongruent(f, g, s - {x});
    }
  }

  // The same for integers.

  ghost function SumInt<T>(f: T -> int, s: set<T>): int {
    if s == {} then 0
    else
      assert exists x :: x in s by { NonEmpty(s); }
      var x :| x in s;
      f(x) + SumInt(f, s - {x})
  }

  lemma {:induction false} SumIntRemove<T>(f: T -> int, s: set<T>, x: T)
    requires x in s
    ensures SumInt(f, s) == f(x) + SumInt(f, s - {x})
    decreases s
  {
    NonEmpty(s);
    var y :| y in s && SumInt(f, s) == f(y) + SumInt(f, s - {y});
    if y != x {
      SumIntRemove(f, s - {y}, x);
      SumIntRemove(f, s - {x}, y);
      assert s - {y} - {x} == s - {x} - {y};
    }
  }

  lemma SumIntAdd<T>(f: T -> int, s: set<T>, x: T)
    requires x !in s
    ensures SumInt(f, s + {x}) == SumInt(f, s) + f(x)
  {
    SumIntRemove(f, s + {x}, x);
    assert s + {x} - {x} == s;
  }

  lemma {:induction false} SumIntUnion<T>(f: T -> int, s: set<T>, t: set<T>)
    requires s !! t
    ensures SumInt(f, s + t) == SumInt(f, s) + SumInt(f, t)
    decreases t
  {
    if t == {} {
      assert s + t == s;
    } else {
      NonEmpty(t);
      var x :| x in t;
      SumIntRemove(f, t, x);
      SumIntUnion(f, s, t - {x});
      SumIntAdd(f, s + (t - {x}), x);
      assert s + t == s + (t - {x}) + {x};
    }
  }
}
