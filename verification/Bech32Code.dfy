/**
 * The checksum of Bech32: a remainder of polynomials over GF(32), kept in a
 * 30-bit word. Words and 5-bit symbols are modelled by their bits, the lowest
 * first, so that exclusive or is inequality bit by bit.
 */
module Bech32Code {
  import opened Arithmetic

  type Word = w: seq<bool> | |w| == 30 witness seq(30, _ => false)
  type Symbol = s: seq<bool> | |s| == 5 witness seq(5, _ => false)

  function Zero(): (r: Word)
    ensures forall i :: 0 <= i < 30 ==> !r[i]
  {
    seq(30, _ => false)
  }

  function One(): (r: Word)
    ensures forall i :: 0 <= i < 30 ==> r[i] == (i == 0)
  {
    seq(30, i => i == 0)
  }

  /** The five low bits of a number. */
  function SymOf(v: nat): Symbol {
    [v % 2 == 1, v / 2 % 2 == 1, v / 4 % 2 == 1, v / 8 % 2 == 1, v / 16 % 2 == 1]
  }

  const NIL: Symbol := [false, false, false, false, false]

  function Nils(n: nat): (r: seq<Symbol>)
    ensures |r| == n && forall i :: 0 <= i < n ==> r[i] == NIL
  {
    seq(n, _ => NIL)
  }

  function Xor(a: Word, b: Word): (r: Word)
    ensures forall i :: 0 <= i < 30 ==> r[i] == (a[i] != b[i])
  {
    seq(30, i requires 0 <= i < 30 => a[i] != b[i])
  }

  function SymXor(a: Symbol, b: Symbol): (r: Symbol)
    ensures forall i :: 0 <= i < 5 ==> r[i] == (a[i] != b[i])
  {
    seq(5, i requires 0 <= i < 5 => a[i] != b[i])
  }

  /** The multiples of the generator for the five bits of the leading coefficient. */
  function Generator(j: nat): nat
    requires j < 5
  {
    match j
    case 0 => 0x3b6a57b2
    case 1 => 0x26508e6d
    case 2 => 0x1ea119fa
    case 3 => 0x3d4233dd
    case _ => 0x2a1462b3
  }

  predicate GeneratorBit(j: nat, i: nat)
    requires j < 5
  {
    Generator(j) / Pow2(i) % 2 == 1
  }

  /** Bit `i` of the generator multiples selected by the leading coefficient of `c`. */
  predicate Reduction(c: Word, i: nat) {
    (((((c[25] && GeneratorBit(0, i))
      != (c[26] && GeneratorBit(1, i)))
      != (c[27] && GeneratorBit(2, i)))
      != (c[28] && GeneratorBit(3, i)))
      != (c[29] && GeneratorBit(4, i)))
  }

  /** One more symbol: shift by one coefficient, add the symbol, reduce. */
  function Step(c: Word, s: Symbol): (r: Word)
    ensures forall i :: 0 <= i < 30 ==> r[i] == ((if i < 5 then s[i] else c[i - 5]) != Reduction(c, i))
  {
    seq(30, i requires 0 <= i < 30 => (if i < 5 then s[i] else c[i - 5]) != Reduction(c, i))
  }

  function Poly(c: Word, ss: seq<Symbol>): Word {
    if ss == [] then c else Step(Poly(c, ss[..|ss| - 1]), ss[|ss| - 1])
  }

  // Linearity.

  lemma ReductionLinear(a: Word, b: Word, i: nat)
    ensures Reduction(Xor(a, b), i) == (Reduction(a, i) != Reduction(b, i))
  {
    hide GeneratorBit;
  }

  lemma StepLinear(a: Word, b: Word, s: Symbol, t: Symbol)
    ensures Step(Xor(a, b), SymXor(s, t)) == Xor(Step(a, s), Step(b, t))
  {
    hide Reduction;
    var l, r := Step(Xor(a, b), SymXor(s, t)), Xor(Step(a, s), Step(b, t));
    forall i | 0 <= i < 30 ensures l[i] == r[i] {
      ReductionLinear(a, b, i);
    }
  }

  function SymXorAll(xs: seq<Symbol>, ys: seq<Symbol>): (r: seq<Symbol>)
    requires |xs| == |ys|
    ensures |r| == |xs| && forall i :: 0 <= i < |r| ==> r[i] == SymXor(xs[i], ys[i])
  {
    if xs == [] then [] else SymXorAll(xs[..|xs| - 1], ys[..|xs| - 1]) + [SymXor(xs[|xs| - 1], ys[|xs| - 1])]
  }

  /** The checksum of a sum is the sum of the checksums. */
  lemma {:induction false} PolyLinear(a: Word, b: Word, xs: seq<Symbol>, ys: seq<Symbol>)
    requires |xs| == |ys|
    ensures Poly(Xor(a, b), SymXorAll(xs, ys)) == Xor(Poly(a, xs), Poly(b, ys))
  {
    hide Step, Xor, SymXor;
    if xs != [] {
      var n := |xs| - 1;
      PolyLinear(a, b, xs[..n], ys[..n]);
      assert SymXorAll(xs, ys)[..n] == SymXorAll(xs[..n], ys[..n]);
      StepLinear(Poly(a, xs[..n]), Poly(b, ys[..n]), xs[n], ys[n]);
    }
  }

  lemma {:induction false} PolyAppend(c: Word, xs: seq<Symbol>, ys: seq<Symbol>)
    ensures Poly(c, xs + ys) == Poly(Poly(c, xs), ys)
  {
    hide Step;
    if ys == [] {
      assert xs + ys == xs;
    } else {
      var n := |ys| - 1;
      PolyAppend(c, xs, ys[..n]);
      assert (xs + ys)[..|xs| + n] == xs + ys[..n];
    }
  }

  // The step is injective.

  /** The low coefficients of the generator multiples are independent. */
  lemma LowBits()
    ensures !GeneratorBit(0, 0) && GeneratorBit(0, 1) && !GeneratorBit(0, 2)
    ensures !GeneratorBit(0, 3) && GeneratorBit(0, 4)
    ensures GeneratorBit(1, 0) && !GeneratorBit(1, 1) && GeneratorBit(1, 2) && GeneratorBit(1, 3) && !GeneratorBit(1, 4)
    ensures !GeneratorBit(2, 0) && GeneratorBit(2, 1) && !GeneratorBit(2, 2) && GeneratorBit(2, 3) && GeneratorBit(2, 4)
    ensures GeneratorBit(3, 0) && !GeneratorBit(3, 1) && GeneratorBit(3, 2) && GeneratorBit(3, 3) && GeneratorBit(3, 4)
    ensures GeneratorBit(4, 0) && GeneratorBit(4, 1) && !GeneratorBit(4, 2) && !GeneratorBit(4, 3) && GeneratorBit(4, 4)
  {
    assert Pow2(0) == 1;
    assert Pow2(1) == 2;
    assert Pow2(2) == 4;
    assert Pow2(3) == 8;
    assert Pow2(4) == 16;
  }

  lemma KernelTop(c: Word)
    requires Step(c, NIL) == Zero()
    ensures !c[25] && !c[26] && !c[27] && !c[28] && !c[29]
  {
    LowBits();
    hide GeneratorBit;
    var r := Step(c, NIL);
    assert !r[0] && !r[1] && !r[2] && !r[3] && !r[4];
  }

  lemma Kernel(c: Word)
    requires Step(c, NIL) == Zero()
    ensures c == Zero()
  {
    KernelTop(c);
    hide GeneratorBit;
    forall i | 0 <= i < 25 ensures !c[i] {
      assert Step(c, NIL)[i + 5] == c[i];
    }
  }

  /** A non-zero word stays non-zero over any number of zero symbols. */
  lemma {:induction false} StaysNonZero(c: Word, n: nat)
    requires c != Zero()
    ensures Poly(c, Nils(n)) != Zero()
  {
    hide Step;
    if n > 0 {
      StaysNonZero(c, n - 1);
      var zs := Nils(n);
      assert zs[..n - 1] == Nils(n - 1);
      if Poly(c, zs) == Zero() {
        Kernel(Poly(c, zs[..n - 1]));
      }
    }
  }

  // Six symbols fill the word.

  /** From zero, up to six symbols are just packed. */
  lemma {:induction false} Packed(ss: seq<Symbol>)
    requires |ss| <= 6
    ensures forall i :: 0 <= i < 30 ==>
      (Poly(Zero(), ss)[i] <==> i < 5 * |ss| && ss[|ss| - 1 - i / 5][i % 5])
  {
    if ss != [] {
      var n := |ss| - 1;
      Packed(ss[..n]);
      var c := Poly(Zero(), ss[..n]);
      hide Poly, Step;
      PolyLast(Zero(), ss);
      forall i | 0 <= i < 30 ensures Step(c, ss[n])[i] <==> i < 5 * |ss| && ss[|ss| - 1 - i / 5][i % 5] {
        PackedStep(c, ss, i);
      }
    }
  }

  lemma PackedStep(c: Word, ss: seq<Symbol>, i: nat)
    requires 0 < |ss| <= 6 && i < 30
    requires var n := |ss| - 1; forall j :: 0 <= j < 30 ==> (c[j] <==> j < 5 * n && ss[..n][n - 1 - j / 5][j % 5])
    ensures Step(c, ss[|ss| - 1])[i] <==> i < 5 * |ss| && ss[|ss| - 1 - i / 5][i % 5]
  {
    var n := |ss| - 1;
    assert !Reduction(c, i) by {
      hide GeneratorBit;
      assert !c[25] && !c[26] && !c[27] && !c[28] && !c[29];
    }
    hide Reduction;
    if i >= 5 {
      var j := i - 5;
      assert j / 5 == i / 5 - 1 && j % 5 == i % 5;
      assert c[j] <==> j < 5 * n && ss[..n][n - 1 - j / 5][j % 5];
    }
  }

  lemma PolyLast(c: Word, ss: seq<Symbol>)
    requires ss != []
    ensures Poly(c, ss) == Step(Poly(c, ss[..|ss| - 1]), ss[|ss| - 1])
  {
  }

  /** The six symbols of a word, the highest first. */
  function Unpacked(w: Word): (ss: seq<Symbol>)
    ensures |ss| == 6
  {
    seq(6, k requires 0 <= k < 6 => w[5 * (5 - k)..5 * (5 - k) + 5])
  }

  lemma UnpackedAt(w: Word, k: nat, t: nat)
    requires k < 6 && t < 5
    ensures Unpacked(w)[k][t] == w[5 * (5 - k) + t]
  {
  }

  lemma PackUnpacked(w: Word)
    ensures Poly(Zero(), Unpacked(w)) == w
  {
    var ss := Unpacked(w);
    Packed(ss);
    hide Poly, Unpacked;
    forall i | 0 <= i < 30 ensures Poly(Zero(), ss)[i] == w[i] {
      var k, t := 5 - i / 5, i % 5;
      assert 5 * (5 - k) + t == i;
      UnpackedAt(w, k, t);
    }
  }

  lemma UnpackPackedAt(ss: seq<Symbol>, k: nat, t: nat)
    requires |ss| == 6 && k < 6 && t < 5
    ensures Unpacked(Poly(Zero(), ss))[k][t] == ss[k][t]
  {
    Packed(ss);
    hide Poly, Unpacked;
    var i := 5 * (5 - k) + t;
    assert i / 5 == 5 - k && i % 5 == t;
    UnpackedAt(Poly(Zero(), ss), k, t);
  }

  lemma UnpackPacked(ss: seq<Symbol>)
    requires |ss| == 6
    ensures Unpacked(Poly(Zero(), ss)) == ss
  {
    hide Poly, Unpacked;
    var us := Unpacked(Poly(Zero(), ss));
    forall k | 0 <= k < 6 ensures us[k] == ss[k] {
      forall t | 0 <= t < 5 ensures us[k][t] == ss[k][t] {
        UnpackPackedAt(ss, k, t);
      }
    }
  }

  lemma XorFacts(a: Word, b: Word)
    ensures Xor(a, Zero()) == a && Xor(a, a) == Zero() && Xor(a, Xor(a, b)) == b
    ensures Xor(a, b) == Zero() ==> a == b
  {
    if Xor(a, b) == Zero() {
      forall i | 0 <= i < 30 ensures a[i] == b[i] {
        assert !Xor(a, b)[i];
      }
    }
  }

  lemma SymXorFacts(a: Symbol, b: Symbol)
    ensures SymXor(NIL, a) == a
    ensures SymXor(a, b) == NIL <==> a == b
  {
    if SymXor(a, b) == NIL {
      forall t | 0 <= t < 5 ensures a[t] == b[t] {
        assert !SymXor(a, b)[t];
      }
    }
  }

  lemma SymXorNil(ss: seq<Symbol>)
    ensures SymXorAll(Nils(|ss|), ss) == ss
  {
    hide SymXorAll, SymXor;
    forall i | 0 <= i < |ss| ensures SymXorAll(Nils(|ss|), ss)[i] == ss[i] {
      SymXorFacts(ss[i], NIL);
    }
  }

  /** Replacing six zeros by six symbols adds their packed value to the checksum. */
  lemma SixMore(c: Word, ss: seq<Symbol>)
    requires |ss| == 6
    ensures Poly(c, ss) == Xor(Poly(c, Nils(6)), Poly(Zero(), ss))
  {
    hide Poly, Xor, SymXorAll;
    XorFacts(c, Zero());
    SymXorNil(ss);
    PolyLinear(c, Zero(), Nils(6), ss);
  }

  /** The symbols that make the checksum one, and no others do. */
  lemma ChecksumUnique(c: Word, ss: seq<Symbol>)
    requires |ss| == 6
    ensures Poly(c, ss) == One() <==> ss == Unpacked(Xor(Poly(c, Nils(6)), One()))
  {
    hide Poly, Xor, Unpacked;
    var z := Poly(c, Nils(6));
    SixMore(c, ss);
    var p := Poly(Zero(), ss);
    XorFacts(z, One());
    XorFacts(z, p);
    UnpackPacked(ss);
    PackUnpacked(Xor(z, One()));
  }

  // Errors.

  /** Lists that differ in exactly one symbol have different checksums. */
  lemma OneError(c: Word, xs: seq<Symbol>, ys: seq<Symbol>, p: nat)
    requires |xs| == |ys| && p < |xs| && xs[p] != ys[p]
    requires forall i :: 0 <= i < |xs| && i != p ==> xs[i] == ys[i]
    ensures Poly(c, xs) != Poly(c, ys)
  {
    hide Poly, Xor, Step;
    var d := SymXorAll(xs, ys);
    PolyLinear(c, c, xs, ys);
    XorFacts(c, c);
    var n := |xs| - p - 1;
    Difference(xs, ys, p);
    assert d == Nils(p) + ([d[p]] + Nils(n));
    PolyAppend(Zero(), Nils(p), [d[p]] + Nils(n));
    PolyNils(p);
    PolyAppend(Zero(), [d[p]], Nils(n));
    PolyOne(d[p]);
    StaysNonZero(Poly(Zero(), [d[p]]), n);
    XorFacts(Poly(c, xs), Poly(c, ys));
  }

  lemma Difference(xs: seq<Symbol>, ys: seq<Symbol>, p: nat)
    requires |xs| == |ys| && p < |xs| && xs[p] != ys[p]
    requires forall i :: 0 <= i < |xs| && i != p ==> xs[i] == ys[i]
    ensures var d := SymXorAll(xs, ys);
      d[p] != NIL && forall i :: 0 <= i < |d| && i != p ==> d[i] == NIL
  {
    hide SymXorAll, SymXor;
    var d := SymXorAll(xs, ys);
    forall i | 0 <= i < |d| ensures d[i] == NIL <==> i != p {
      SymXorFacts(xs[i], ys[i]);
    }
  }

  lemma PolyOne(s: Symbol)
    requires s != NIL
    ensures Poly(Zero(), [s]) != Zero()
  {
    Packed([s]);
    hide Poly;
    if Poly(Zero(), [s]) == Zero() {
      forall t | 0 <= t < 5 ensures !s[t] {
        assert Poly(Zero(), [s])[t] <==> s[t];
      }
    }
  }

  lemma {:induction false} PolyNils(n: nat)
    ensures Poly(Zero(), Nils(n)) == Zero()
  {
    if n > 0 {
      PolyNils(n - 1);
      assert Nils(n)[..n - 1] == Nils(n - 1);
      hide GeneratorBit;
      assert Step(Zero(), NIL) == Zero();
    }
  }

  // The reduction in terms of GF(32).

  /** Multiplication by {2} in GF(32), whose elements are polynomials modulo a^5 + a^3 + 1. */
  function Double(s: Symbol): Symbol {
    [s[4], s[0], s[1], s[2] != s[4], s[3]]
  }

  function Doubled(s: Symbol, n: nat): Symbol {
    if n == 0 then s else Double(Doubled(s, n - 1))
  }

  /** The summand for bit `n` of a factor. */
  function Summand(a: Symbol, b: Symbol, n: nat): Symbol
    requires n < 5
  {
    if a[n] then Doubled(b, n) else NIL
  }

  /** Multiplication in GF(32). */
  function Times(a: Symbol, b: Symbol): Symbol {
    var low := SymXor(SymXor(Summand(a, b, 0), Summand(a, b, 1)), Summand(a, b, 2));
    SymXor(SymXor(low, Summand(a, b, 3)), Summand(a, b, 4))
  }

  /** The coefficients of the reduction of x^6: {29}x^5 + {22}x^4 + {20}x^3 + {21}x^2 + {29}x + {18}. */
  function Coefficient(j: nat): Symbol
    requires j < 6
  {
    match j
    case 0 => [false, true, false, false, true]
    case 1 => [true, false, true, true, true]
    case 2 => [true, false, true, false, true]
    case 3 => [false, false, true, false, true]
    case 4 => [false, true, true, false, true]
    case _ => [true, false, true, true, true]
  }

  /** Coefficient `j` of a remainder. */
  function Part(c: Word, j: nat): Symbol
    requires j < 6
  {
    c[5 * j..5 * j + 5]
  }

  /** Coefficient `j` of a generator multiple. */
  function GeneratorPart(n: nat, j: nat): Symbol
    requires n < 5
  {
    [GeneratorBit(n, 5 * j), GeneratorBit(n, 5 * j + 1), GeneratorBit(n, 5 * j + 2), GeneratorBit(n, 5 * j + 3),
     GeneratorBit(n, 5 * j + 4)]
  }

  /** Coefficient `j` of a generator multiple as a number. */
  function Digit(n: nat, j: nat): nat
    requires n < 5
  {
    Quotient(Generator(n), Pow2(5 * j)) % 32
  }

  lemma LowFive(x: nat)
    ensures SymOf(x) == SymOf(x % 32)
  {
    var q, r := x / 32, x % 32;
    HalfOfSum(x, 16 * q, r);
    HalfOfSum(x / 2, 8 * q, r / 2);
    HalfOfSum(x / 4, 4 * q, r / 4);
    HalfOfSum(x / 8, 2 * q, r / 8);
    HalfOfSum(x / 16, q, r / 16);
  }

  lemma HalfOfSum(x: nat, q: nat, r: nat)
    requires x == 2 * q + r
    ensures x % 2 == r % 2 && x / 2 == q + r / 2
  {
  }

  lemma PartOfDigit(n: nat, j: nat)
    requires n < 5
    ensures GeneratorPart(n, j) == SymOf(Digit(n, j))
  {
    var g := Generator(n);
    var x := Quotient(g, Pow2(5 * j));
    assert Pow2(1) == 2 && Pow2(2) == 4 && Pow2(3) == 8 && Pow2(4) == 16;
    hide Generator, Pow2;
    QuotientTwice(g, 5 * j, 1);
    QuotientTwice(g, 5 * j, 2);
    QuotientTwice(g, 5 * j, 3);
    QuotientTwice(g, 5 * j, 4);
    assert GeneratorPart(n, j) == SymOf(x);
    LowFive(x);
  }

  /** The coefficients of the constants. */
  function Row(n: nat): (r: seq<nat>)
    requires n < 5
    ensures |r| == 6
  {
    match n
    case 0 => [18, 29, 21, 20, 22, 29]
    case 1 => [13, 19, 3, 1, 5, 19]
    case 2 => [26, 15, 6, 2, 10, 15]
    case 3 => [29, 30, 12, 4, 20, 30]
    case _ => [19, 21, 24, 8, 1, 21]
  }

  /** The number that the coefficients from `j` on make up. */
  function Upper(n: nat, j: nat): nat
    requires n < 5 && j <= 6
    decreases 6 - j
  {
    if j == 6 then 0 else Row(n)[j] + 32 * Upper(n, j + 1)
  }

  lemma WholeRow(n: nat)
    requires n < 5
    ensures Upper(n, 0) == Generator(n)
  {
    assert Upper(n, 6) == 0;
    assert Upper(n, 4) == Row(n)[4] + 32 * Row(n)[5];
    assert Upper(n, 2) == Row(n)[2] + 32 * Row(n)[3] + 1024 * Upper(n, 4);
    assert Upper(n, 0) == Row(n)[0] + 32 * Row(n)[1] + 1024 * Upper(n, 2);
  }

  lemma RowsAreDigits(n: nat, j: nat)
    requires n < 5 && j < 6
    ensures Row(n)[j] < 32
  {
  }

  lemma {:induction false} UpperIs(n: nat, j: nat)
    requires n < 5 && j <= 6
    ensures Quotient(Generator(n), Pow2(5 * j)) == Upper(n, j)
  {
    hide Generator, Row;
    if j == 0 {
      WholeRow(n);
      Pow2Zero();
    } else {
      UpperIs(n, j - 1);
      QuotientTwice(Generator(n), 5 * (j - 1), 5);
      assert Pow2(5) == 32;
      RowsAreDigits(n, j - 1);
      DivUnique(Upper(n, j - 1), 32, Upper(n, j), Row(n)[j - 1]);
    }
  }

  lemma RowIs(n: nat, j: nat)
    requires n < 5 && j < 6
    ensures Digit(n, j) == Row(n)[j]
  {
    hide Generator, Row, Pow2;
    UpperIs(n, j);
    RowsAreDigits(n, j);
    DivUnique(Upper(n, j), 32, Upper(n, j + 1), Row(n)[j]);
  }

  lemma NextRow(n: nat, j: nat)
    requires n < 4 && j < 6
    ensures SymOf(Row(n + 1)[j]) == Double(SymOf(Row(n)[j]))
  {
    hide SymOf, Double;
    match n {
      case 0 => NextRow0(j);
      case 1 => NextRow1(j);
      case 2 => NextRow2(j);
      case _ => NextRow3(j);
    }
  }

  lemma NextRow0(j: nat)
    requires j < 6
    ensures SymOf(Row(1)[j]) == Double(SymOf(Row(0)[j]))
  {
  }

  lemma NextRow1(j: nat)
    requires j < 6
    ensures SymOf(Row(2)[j]) == Double(SymOf(Row(1)[j]))
  {
  }

  lemma NextRow2(j: nat)
    requires j < 6
    ensures SymOf(Row(3)[j]) == Double(SymOf(Row(2)[j]))
  {
  }

  lemma NextRow3(j: nat)
    requires j < 6
    ensures SymOf(Row(4)[j]) == Double(SymOf(Row(3)[j]))
  {
  }

  lemma FirstRow(j: nat)
    requires j < 6
    ensures SymOf(Row(0)[j]) == Coefficient(j)
  {
  }

  /** The constants of the code are the multiples of one polynomial by the powers of {2}. */
  lemma {:induction false} GeneratorMultiples(n: nat, j: nat)
    requires n < 5 && j < 6
    ensures GeneratorPart(n, j) == Doubled(Coefficient(j), n)
  {
    hide Digit, SymOf, Double, Coefficient, GeneratorPart, Row;
    PartOfDigit(n, j);
    RowIs(n, j);
    if n == 0 {
      FirstRow(j);
    } else {
      GeneratorMultiples(n - 1, j);
      PartOfDigit(n - 1, j);
      RowIs(n - 1, j);
      NextRow(n - 1, j);
    }
  }

  /**
   * One step multiplies by x, adds the symbol and reduces modulo the generator: the coefficient that leaves at the top
   * comes back times the coefficients of the reduction of x^6.
   */
  lemma StepReduces(c: Word, s: Symbol, j: nat)
    requires j < 6
    ensures Part(Step(c, s), j) == SymXor(if j == 0 then s else Part(c, j - 1), Times(Part(c, 5), Coefficient(j)))
  {
    hide Coefficient, GeneratorBit, Doubled;
    var top, k := Part(c, 5), Coefficient(j);
    var l, r := Part(Step(c, s), j), SymXor(if j == 0 then s else Part(c, j - 1), Times(top, k));
    forall n | 0 <= n < 5 ensures GeneratorPart(n, j) == Doubled(k, n) {
      GeneratorMultiples(n, j);
    }
    forall t | 0 <= t < 5 ensures l[t] == r[t] {
      ReductionIs(c, j, t);
    }
  }

  lemma ReductionIs(c: Word, j: nat, t: nat)
    requires j < 6 && t < 5
    requires forall n :: 0 <= n < 5 ==> GeneratorPart(n, j) == Doubled(Coefficient(j), n)
    ensures Reduction(c, 5 * j + t) == Times(Part(c, 5), Coefficient(j))[t]
  {
    hide Coefficient, GeneratorBit, Doubled;
    var top, k := Part(c, 5), Coefficient(j);
    assert top[0] == c[25] && top[1] == c[26] && top[2] == c[27] && top[3] == c[28] && top[4] == c[29];
    forall n | 0 <= n < 5 ensures GeneratorBit(n, 5 * j + t) == Doubled(k, n)[t] {
      assert GeneratorPart(n, j)[t] == GeneratorBit(n, 5 * j + t);
    }
    assert Summand(top, k, 0)[t] == (c[25] && GeneratorBit(0, 5 * j + t));
    assert Summand(top, k, 1)[t] == (c[26] && GeneratorBit(1, 5 * j + t));
    assert Summand(top, k, 2)[t] == (c[27] && GeneratorBit(2, 5 * j + t));
    assert Summand(top, k, 3)[t] == (c[28] && GeneratorBit(3, 5 * j + t));
    assert Summand(top, k, 4)[t] == (c[29] && GeneratorBit(4, 5 * j + t));
  }
}
