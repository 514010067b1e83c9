/** Facts about division and powers that the solver does not find by itself. */
module Arithmetic {

  const TWO_32: int := 0x1_0000_0000
  const TWO_64: int := 0x1_0000_0000_0000_0000

  lemma DivUnique(x: int, m: int, d: int, r: int)
    requires m > 0 && 0 <= r < m && x == d * m + r
    ensures x / m == d && x % m == r
  {
    var d', r' := x / m, x % m;
    assert x == d' * m + r' && 0 <= r' < m;
    assert (d - d') * m == r' - r;
    assert d - d' >= 1 ==> (d - d') * m >= m;
    assert d' - d >= 1 ==> (d' - d) * m >= m;
  }

  function Pow2(n: nat): (r: nat)
    ensures r >= 1
  {
    if n == 0 then 1 else 2 * Pow2(n - 1)
  }

  /** Division of natural numbers. */
  function Quotient(x: nat, d: nat): (q: nat)
    requires d > 0
  {
    x / d
  }

  lemma Associative(x: int, y: int, z: int)
    ensures x * (y * z) == (x * y) * z
  {
  }

  lemma TimesMonotone(a: nat, b: nat, c: nat, d: nat)
    requires a <= c && b <= d
    ensures a * b <= c * d
  {
    assert a * b <= c * b && c * b <= c * d;
  }

  lemma DivMod(x: int, d: int)
    requires d > 0
    ensures x == x / d * d + x % d && 0 <= x % d < d
  {
  }

  lemma {:induction false} Pow2Add(m: nat, n: nat)
    ensures Pow2(m + n) == Pow2(m) * Pow2(n)
  {
    if m > 0 {
      Pow2Add(m - 1, n);
      Associative(2, Pow2(m - 1), Pow2(n));
    }
  }

  lemma Pow2Monotone(m: nat, n: nat)
    requires m <= n
    ensures Pow2(m) <= Pow2(n)
  {
    Pow2Add(m, n - m);
    var a, b := Pow2(m), Pow2(n - m);
    assert a * 1 <= a * b;
  }

  lemma Pow2Of32()
    ensures Pow2(8) == 0x100 && Pow2(16) == 0x1_0000 && Pow2(32) == 0x1_0000_0000
  {
    assert Pow2(4) == 16;
    Pow2Add(4, 4);
    Pow2Add(8, 8);
    Pow2Add(16, 16);
  }

  /** Bitwise disjunction. */
  function Or(x: nat, y: nat): nat {
    if x == 0 then y
    else if y == 0 then x
    else 2 * Or(x / 2, y / 2) + (if x % 2 == 1 || y % 2 == 1 then 1 else 0)
  }

  /** Bits that do not overlap are added. */
  lemma {:induction false} OrDisjoint(h: nat, y: nat, s: nat)
    requires y < Pow2(s)
    ensures Or(h * Pow2(s), y) == h * Pow2(s) + y && Or(y, h * Pow2(s)) == h * Pow2(s) + y
  {
    if s > 0 {
      var p := Pow2(s - 1);
      var x := h * p;
      Halved(h, p);
      if 2 * x != 0 && y != 0 {
        OrDisjoint(h, y / 2, s - 1);
        assert 2 * x / 2 == x && 2 * x % 2 == 0;
      }
    }
  }

  lemma Halved(h: int, p: int)
    ensures h * (2 * p) == 2 * (h * p)
  {
    Associative(h, 2, p);
    Associative(2, h, p);
  }

  lemma HalfQuotient(c: nat, p: nat)
    requires p > 0
    ensures c / (2 * p) == c / 2 / p
  {
    var h := c / 2;
    DivMod(h, p);
    var q, r := h / p, h % p;
    Halved(q, p);
    DivUnique(c, 2 * p, q, 2 * r + c % 2);
  }

  lemma Pow2Zero()
    ensures Pow2(0) == 1
  {
  }

  lemma SmallMod(x: nat, m: nat)
    requires x < m
    ensures x % m == x
  {
  }

  lemma QuotientBelow(x: nat, d: nat, k: nat)
    requires d > 0 && x < k * d
    ensures 0 <= x / d < k
  {
    DivMod(x, d);
    var q := x / d;
    assert q >= k ==> q * d >= k * d;
  }

  lemma {:induction false} QuotientTwice(x: nat, a: nat, b: nat)
    ensures Quotient(x, Pow2(a + b)) == Quotient(Quotient(x, Pow2(a)), Pow2(b))
  {
    if a > 0 {
      HalfQuotient(x, Pow2(a - 1 + b));
      HalfQuotient(x, Pow2(a - 1));
      QuotientTwice(x / 2, a - 1, b);
    }
  }
}
