/**
 * Compact targets and the work of a block.
 */
module Work {
  import opened Arithmetic
  import opened Radix
  import opened Limbs
  import opened Uint256

  const WIDTH: int := 8

  // The compact form: a byte of size, a sign bit and 23 bits of mantissa.

  function Size(compact: nat): nat { compact / 0x100_0000 }

  function Mantissa(compact: nat): nat { compact % 0x80_0000 }

  predicate SignBit(compact: nat) { compact / 0x80_0000 % 2 == 1 }

  /** The number that a compact form stands for, without its sign. */
  function Magnitude(compact: nat): nat {
    var s, m := Size(compact), Mantissa(compact);
    if s <= 3 then Quotient(m, Pow2(8 * (3 - s))) else Scaled(m, s - 3)
  }

  /** `m * 256^e`. */
  function Scaled(m: nat, e: nat): nat {
    LimbProduct(m, Pow2(8 * e));
    m * Pow2(8 * e)
  }

  lemma RangeIs()
    ensures Weight(WIDTH) == Pow2(256)
  {
    WeightIsPow2(WIDTH);
  }

  lemma SmallPowers()
    ensures Pow2(8) == 0x100 && Pow2(16) == 0x1_0000 && Pow2(23) == 0x80_0000 && Pow2(24) == 0x100_0000
  {
    Pow2Of32();
    assert Pow2(7) == 0x80;
    Pow2Add(16, 7);
    Pow2Add(16, 8);
  }

  /** When a scaled mantissa leaves the range: the conditions of the code are exact. */
  lemma OverflowIff(m: nat, size: nat)
    requires m < 0x80_0000 && size > 3
    ensures Scaled(m, size - 3) >= Pow2(256) <==>
      m != 0 && (size > 34 || (m > 0xff && size > 33) || (m > 0xffff && size > 32))
  {
    SmallPowers();
    var e := 8 * (size - 3);
    hide Pow2;
    if size > 34 {
      Pow2Monotone(256, e);
      if m > 0 {
        TimesMonotone(1, Pow2(256), m, Pow2(e));
      }
    } else if size == 34 {
      Pow2Add(8, 248);
      Compared(m, 0x100, Pow2(248));
    } else if size == 33 {
      Pow2Add(16, 240);
      Compared(m, 0x1_0000, Pow2(240));
    } else {
      Pow2Monotone(e, 232);
      Pow2Add(24, 232);
      Compared(m, 0x100_0000, Pow2(232));
      TimesMonotone(m, Pow2(e), m, Pow2(232));
    }
  }

  lemma Compared(m: nat, k: nat, p: nat)
    requires p > 0
    ensures m * p >= k * p <==> m >= k
  {
    if m >= k {
      TimesMonotone(k, p, m, p);
    } else {
      TimesStrict(m, k, p);
    }
  }

  /** A magnitude in range is not the largest value. */
  lemma NotLargest(compact: nat)
    requires Magnitude(compact) < Pow2(256)
    ensures Magnitude(compact) + 1 < Pow2(256)
  {
    var s, m := Size(compact), Mantissa(compact);
    if s <= 3 {
      SmallPowers();
      Pow2Monotone(24, 256);
      hide Pow2;
      QuotientAtMost(m, Pow2(8 * (3 - s)));
    } else {
      EvenPower(8 * (s - 3));
      EvenPower(256);
      hide Pow2, Size, Mantissa;
      EvenBelow(m, Pow2(8 * (s - 3) - 1), Pow2(255));
    }
  }

  lemma EvenBelow(m: nat, p: nat, q: nat)
    requires m * (2 * p) < 2 * q
    ensures m * (2 * p) + 1 < 2 * q
  {
    Halved(m, p);
  }

  lemma EvenPower(n: nat)
    requires n > 0
    ensures Pow2(n) == 2 * Pow2(n - 1)
  {
  }

  lemma QuotientAtMost(x: nat, d: nat)
    requires d > 0
    ensures Quotient(x, d) <= x
  {
    DivMod(x, d);
    QuotientPositive(x, d);
    TimesMonotone(x / d, 1, x / d, d);
  }

  /** `=` from a 64-bit number. */
  method Assign(a: Uint, x: nat)
    requires a.pn.Length >= 2 && x < BASE * BASE
    modifies a.pn
    ensures a.Valid() && a.V() == x
  {
    a.Clear();
    a.pn[0] := x % BASE;
    a.pn[1] := x / BASE;
    TwoLimbs(a.pn[..]);
    WeightNext(0);
    WeightNext(1);
  }

  lemma TwoLimbs(s: seq<nat>)
    requires |s| >= 2 && forall i :: 2 <= i < |s| ==> s[i] == 0
    ensures Value(s) == s[0] + s[1] * Weight(1)
  {
    LowSplit(s, 2, |s|);
    LowZeros(s[2..], |s| - 2);
    LowNext(s, 1);
    LowNext(s, 0);
    WeightNext(0);
    hide Low, Weight;
    assert Weight(2) * 0 == 0;
  }

  method SetCompact(compact: nat) returns (r: Uint, negative: bool, overflow: bool)
    requires compact < BASE
    ensures fresh(r) && fresh(r.pn) && r.Valid() && r.pn.Length == WIDTH
    ensures r.V() == Magnitude(compact) % Pow2(256)
    ensures negative <==> Magnitude(compact) != 0 && SignBit(compact)
    ensures overflow <==> Magnitude(compact) >= Pow2(256)
  {
    hide Value, Weight, Pow2;
    r := new Uint(WIDTH);
    RangeIs();
    SmallPowers();
    var size, word := Size(compact), Mantissa(compact);
    if size <= 3 {
      QuotientAtMost(word, Pow2(8 * (3 - size)));
      word := Quotient(word, Pow2(8 * (3 - size)));
      Assign(r, word);
      Pow2Monotone(24, 256);
      SmallMod(word, Pow2(256));
    } else {
      Assign(r, word);
      r.ShiftLeft(8 * (size - 3));
      OverflowIff(word, size);
      ScaledZero(word, size - 3);
    }
    negative := word != 0 && SignBit(compact);
    overflow := word != 0 && (size > 34 || (word > 0xff && size > 33) || (word > 0xffff && size > 32));
  }

  lemma ScaledZero(m: nat, e: nat)
    ensures Scaled(m, e) == 0 <==> m == 0
  {
    var p := Pow2(8 * e);
    hide Pow2;
    if m > 0 {
      TimesMonotone(1, 1, m, p);
    }
  }

  // Back to the compact form.

  /** The low 64 bits. */
  method GetLow64(a: Uint) returns (r: nat)
    requires a.Valid() && a.pn.Length >= 2
    ensures r == a.V() % (BASE * BASE)
  {
    hide Low, Weight, Or;
    ghost var s := a.pn[..];
    LowSplit(s, 2, |s|);
    LowNext(s, 1);
    LowNext(s, 0);
    WeightNext(0);
    WeightNext(1);
    Pow2Of32();
    hide Pow2;
    OrDisjoint(s[1], s[0], 32);
    r := Or(a.pn[0], a.pn[1] * BASE);
    DivUnique(a.V(), BASE * BASE, Low(s[2..], |s| - 2), r);
  }

  /** Setting a bit that is clear adds it. */
  lemma {:induction false} OrBit(c: nat, b: nat)
    requires c / Pow2(b) % 2 == 0
    ensures Or(c, Pow2(b)) == c + Pow2(b)
  {
    if b > 0 && c > 0 {
      var p := Pow2(b - 1);
      HalfQuotient(c, p);
      OrBit(c / 2, b - 1);
    }
  }

  /** The highest three bytes of a number, or the number moved up to three bytes. */
  function Word(x: nat, size: nat): nat {
    if size <= 3 then Scaled(x, 3 - size) else Quotient(x, Pow2(8 * (size - 3)))
  }

  lemma BytesOf(x: nat, n: nat)
    requires HasBits(x, n)
    ensures x < Pow2(8 * ((n + 7) / 8)) && (n > 0 ==> Pow2(8 * ((n + 7) / 8) - 8) <= x)
  {
    var size := (n + 7) / 8;
    if n > 0 {
      Pow2Monotone(n, 8 * size);
      Pow2Monotone(8 * size - 8, n - 1);
    }
  }

  lemma WordBound(x: nat, size: nat)
    requires x < Pow2(8 * size)
    ensures Word(x, size) < 0x100_0000
  {
    SmallPowers();
    if size <= 3 {
      Pow2Add(8 * size, 8 * (3 - size));
      hide Pow2;
      TimesStrict(x, Pow2(8 * size), Pow2(8 * (3 - size)));
    } else {
      Pow2Add(24, 8 * (size - 3));
      hide Pow2;
      QuotientBelow(x, Pow2(8 * (size - 3)), 0x100_0000);
    }
  }

  /** Moving the size up by one drops a byte of the word. */
  lemma WordNext(x: nat, size: nat)
    ensures Word(x, size + 1) == Word(x, size) / 0x100
  {
    SmallPowers();
    if size < 3 {
      var e := 8 * (2 - size);
      Pow2Add(8, e);
      hide Pow2;
      Associative(x, 0x100, Pow2(e));
      assert x * (0x100 * Pow2(e)) == 0x100 * (x * Pow2(e)) by { Associative(0x100, x, Pow2(e)); }
    } else {
      var e := 8 * (size - 3);
      Pow2Add(e, 8);
      assert Pow2(0) == 1;
      hide Pow2;
      if size > 3 {
        DivTwice(x, Pow2(e), 0x100);
      } else {
        assert x * 1 == x;
      }
    }
  }

  lemma DivTwice(x: nat, d: nat, e: nat)
    requires d > 0 && e > 0
    ensures d * e > 0 && x / (d * e) == x / d / e
  {
    TimesMonotone(1, 1, d, e);
    DivMod(x, d);
    QuotientPositive(x, d);
    var q, r := x / d, x % d;
    DivMod(q, e);
    var qq, rr := q / e, q % e;
    SumTimes(qq * e, rr, d);
    Associative(qq, e, d);
    assert e * d == d * e;
    TimesMonotone(rr + 1, d, e, d);
    OneMore(rr, d);
    TimesMonotone(0, 0, rr, d);
    DivUnique(x, d * e, qq, rr * d + r);
  }

  /** The size and mantissa that `GetCompact` settles on. */
  function CompactSize(x: nat, n: nat): nat {
    var size := (n + 7) / 8;
    if Word(x, size) >= 0x80_0000 then size + 1 else size
  }

  method TopWord(a: Uint, size: nat) returns (word: nat)
    requires a.Valid() && a.pn.Length == WIDTH && a.V() < Pow2(8 * size)
    ensures word == Word(a.V(), size) < 0x100_0000
  {
    hide Value, Weight, Pow2, Word;
    ghost var x := a.V();
    WordBound(x, size);
    WordParts(x, size);
    if size <= 3 {
      var low := GetLow64(a);
      SmallNumber(x, size);
      word := Scaled(low, 3 - size);
    } else {
      var b := new Uint.Copy(a);
      b.ShiftRight(8 * (size - 3));
      word := GetLow64(b);
    }
  }

  /** Size, sign and mantissa in their places. */
  method Assembled(size: nat, word: nat, negative: bool) returns (compact: nat)
    requires word < 0x80_0000 && size < 256
    ensures compact < BASE && Size(compact) == size && Mantissa(compact) == word
    ensures SignBit(compact) <==> negative && word != 0
  {
    SmallPowers();
    hide Pow2, Or, Size, Mantissa, SignBit;
    OrDisjoint(size, word, 24);
    compact := Or(word, size * 0x100_0000);
    PartsOf(size, 0, word);
    PartsOf(size, 1, word);
    if negative && word != 0 {
      OrBit(compact, 23);
      compact := Or(compact, 0x80_0000);
    }
  }

  lemma PartsOf(size: nat, sign: nat, word: nat)
    requires size < 256 && sign <= 1 && word < 0x80_0000
    ensures var c := size * 0x100_0000 + sign * 0x80_0000 + word;
      && c < BASE && Size(c) == size && Mantissa(c) == word && c / 0x80_0000 % 2 == sign && (SignBit(c) <==> sign == 1)
  {
    var c := size * 0x100_0000 + sign * 0x80_0000 + word;
    DivUnique(c, 0x100_0000, size, sign * 0x80_0000 + word);
    DivUnique(c, 0x80_0000, 2 * size + sign, word);
  }

  /** The compact form of a number keeps its highest bytes; the two assertions of the code hold. */
  method GetCompact(a: Uint, negative: bool) returns (compact: nat, ghost n: nat)
    requires a.Valid() && a.pn.Length == WIDTH
    ensures compact < BASE && IsCompact(a.V(), n, compact)
    ensures SignBit(compact) <==> negative && Mantissa(compact) != 0
  {
    hide Value, Weight, Pow2, HasBits, Word, Size, Mantissa, SignBit;
    ghost var x := a.V();
    var bits := a.Bits();
    n := bits;
    BytesOf(x, n);
    a.InRange();
    RangeIs();
    BitsInRange(x, n, 256);
    var size := (bits + 7) / 8;
    WordNext(x, size);
    var word := TopWord(a, size);
    if word / 0x80_0000 % 2 == 1 {
      word := word / 0x100;
      size := size + 1;
    }
    assert word < 0x80_0000;
    assert size < 256;
    compact := Assembled(size, word, negative);
    assert a.V() == x;
  }

  /** Size and mantissa are those of a number of `n` bits. */
  ghost predicate IsCompact(x: nat, n: nat, compact: nat) {
    && HasBits(x, n)
    && Size(compact) == CompactSize(x, n) && Mantissa(compact) == Word(x, CompactSize(x, n))
  }

  lemma BitsInRange(x: nat, n: nat, m: nat)
    requires HasBits(x, n) && x < Pow2(m)
    ensures n <= m
  {
    if n > m {
      Pow2Monotone(m, n - 1);
    }
  }

  lemma SmallNumber(x: nat, size: nat)
    requires x < Pow2(8 * size) && size <= 3
    ensures x < 0x100_0000 && x % (BASE * BASE) == x
  {
    SmallPowers();
    Pow2Monotone(8 * size, 24);
  }

  lemma WordParts(x: nat, size: nat)
    ensures Word(x, size) == if size <= 3 then Scaled(x, 3 - size) else Quotient(x, Pow2(8 * (size - 3)))
  {
  }

  /** What the compact form of a number stands for: the number with its low bytes cut off. */
  lemma CompactMagnitude(compact: nat, x: nat, n: nat)
    requires IsCompact(x, n, compact)
    ensures var e := 8 * (Size(compact) - 3);
      if Size(compact) <= 3 then Magnitude(compact) == x
      else Magnitude(compact) == Quotient(x, Pow2(e)) * Pow2(e) && 0 <= x - Magnitude(compact) < Pow2(e)
  {
    var size := Size(compact);
    hide HasBits, CompactSize;
    if size <= 3 {
      var p := Pow2(8 * (3 - size));
      hide Pow2;
      DivUnique(x * p, p, x, 0);
    } else {
      var p := Pow2(8 * (size - 3));
      hide Pow2;
      DivMod(x, p);
    }
  }

  // Which compact forms come back.

  /** A form that `GetCompact` produces: a normalized mantissa without a byte that the size leaves no room for. */
  predicate Canonical(compact: nat) {
    || compact == 0
    || (&& Magnitude(compact) < Pow2(256) && Mantissa(compact) >= 0x8000
        && (Size(compact) <= 3 ==> Mantissa(compact) % Pow2(8 * (3 - Size(compact))) == 0))
  }

  lemma SameForm(c: nat, d: nat)
    requires Size(c) == Size(d) && Mantissa(c) == Mantissa(d) && SignBit(c) == SignBit(d)
    ensures c == d
  {
    FromParts(c);
    FromParts(d);
  }

  lemma FromParts(c: nat)
    ensures c == Size(c) * 0x100_0000 + c / 0x80_0000 % 2 * 0x80_0000 + Mantissa(c)
  {
  }

  /** A number and a mantissa that loses nothing of it, compared at a common scale. */
  lemma CommonScale(m: nat, s: nat, x: nat)
    requires if s <= 3 then x * Pow2(8 * (3 - s)) == m else x == m * Pow2(8 * (s - 3))
    ensures x * Pow2(24) == m * Pow2(8 * s)
  {
    hide Pow2;
    if s <= 3 {
      Pow2Add(8 * (3 - s), 8 * s);
      Associative(x, Pow2(8 * (3 - s)), Pow2(8 * s));
    } else {
      Pow2Add(8 * (s - 3), 24);
      Associative(m, Pow2(8 * (s - 3)), Pow2(24));
    }
  }

  /** Whether the number reaches `2^(8 * s - 8 * k)` is whether its mantissa reaches `2^(24 - 8 * k)`. */
  lemma Reaches(m: nat, s: nat, x: nat, k: nat)
    requires x * Pow2(24) == m * Pow2(8 * s) && k <= s && k <= 3
    ensures x >= Pow2(8 * (s - k)) <==> m >= Pow2(24 - 8 * k)
  {
    hide Pow2;
    var a, b := Pow2(8 * (s - k)), Pow2(24 - 8 * k);
    Pow2Add(8 * (s - k), 24);
    Pow2Add(24 - 8 * k, 8 * s);
    Compared(x, a, Pow2(24));
    Compared(m, b, Pow2(8 * s));
  }

  /** The number of bytes is unique. */
  lemma BytesAre(x: nat, n: nat, s: nat)
    requires HasBits(x, n) && s > 0 && Pow2(8 * s - 8) <= x < Pow2(8 * s)
    ensures (n + 7) / 8 == s
  {
    hide Pow2;
    BytesOf(x, n);
    var k := (n + 7) / 8;
    if k < s {
      Pow2Monotone(8 * k, 8 * s - 8);
    } else if k > s {
      Pow2Monotone(8 * s, 8 * k - 8);
    }
  }

  /** A canonical form is the compact form of its magnitude. */
  lemma CanonicalComesBack(c: nat, n: nat)
    requires Canonical(c) && c != 0 && HasBits(Magnitude(c), n)
    ensures CompactSize(Magnitude(c), n) == Size(c) && Word(Magnitude(c), Size(c)) == Mantissa(c)
    ensures Magnitude(c) > 0
  {
    hide HasBits, CompactSize, Pow2, Size, Mantissa, Magnitude, Word, Canonical;
    SmallPowers();
    var s, m, x := Size(c), Mantissa(c), Magnitude(c);
    CanonicalParts(c);
    ExactMagnitude(c);
    CommonScale(m, s, x);
    Reaches(m, s, x, 0);
    Reaches(m, s, x, 1);
    SizeComesBack(m, s, x, n);
  }

  lemma CanonicalParts(c: nat)
    requires Canonical(c) && c != 0
    ensures Size(c) > 0 && 0x8000 <= Mantissa(c) < 0x80_0000
  {
    SmallPowers();
    hide Magnitude;
    if Size(c) == 0 {
      SmallMod(Mantissa(c), Pow2(24));
    }
  }

  lemma ExactMagnitude(c: nat)
    requires Canonical(c) && c != 0
    ensures var s, m, x := Size(c), Mantissa(c), Magnitude(c);
      && (if s <= 3 then x * Pow2(8 * (3 - s)) == m else x == m * Pow2(8 * (s - 3)))
      && Word(x, s) == m
  {
    var s, m := Size(c), Mantissa(c);
    var p := Pow2(if s <= 3 then 8 * (3 - s) else 8 * (s - 3));
    hide Pow2, Size, Mantissa;
    DivMod(m, p);
    DivUnique(m * p, p, m, 0);
  }

  lemma SizeComesBack(m: nat, s: nat, x: nat, n: nat)
    requires HasBits(x, n) && s > 0 && x < Pow2(8 * s) && (x >= Pow2(8 * (s - 1)) <==> m >= 0x1_0000)
    requires 0x8000 <= m < 0x80_0000 && Word(x, s) == m && x * Pow2(24) == m * Pow2(8 * s)
    ensures CompactSize(x, n) == s && x > 0
  {
    SmallPowers();
    hide Pow2, HasBits, Word;
    if m >= 0x1_0000 {
      BytesAre(x, n, s);
    } else {
      WordNext(x, s - 1);
      if s == 1 {
        Pow2Zero();
        assert x == 0;
        WordZero(s);
      } else {
        Reaches(m, s, x, 2);
        BytesAre(x, n, s - 1);
      }
    }
  }

  lemma WordZero(s: nat)
    ensures Word(0, s) == 0
  {
  }

  /** Compact forms of numbers are canonical. */
  lemma FormsAreCanonical(c: nat, x: nat, n: nat)
    requires IsCompact(x, n, c) && x < Pow2(256) && (SignBit(c) ==> Mantissa(c) != 0)
    ensures Canonical(c)
  {
    hide Pow2, Size, Mantissa, SignBit, HasBits, Magnitude, Word;
    CompactMagnitude(c, x, n);
    if x == 0 {
      NothingIsZero(c, n);
    } else {
      TopByte(x, n);
      WordNext(x, (n + 7) / 8);
      if Size(c) <= 3 {
        WordParts(x, Size(c));
        MultipleMod(x, Pow2(8 * (3 - Size(c))));
      }
    }
  }

  lemma NothingIsZero(c: nat, n: nat)
    requires IsCompact(0, n, c) && (SignBit(c) ==> Mantissa(c) != 0)
    ensures c == 0
  {
    hide Size, Mantissa, SignBit, Pow2, Word;
    assert n == 0 by { BitsOfZero(0, n); }
    WordZero(0);
    FromParts(c);
    assert SignBit(0) == false && Size(0) == 0 && Mantissa(0) == 0 by { ZeroForm(); }
    SameForm(c, 0);
  }

  lemma ZeroForm()
    ensures !SignBit(0) && Size(0) == 0 && Mantissa(0) == 0
  {
  }

  lemma MultipleMod(x: nat, p: nat)
    requires p > 0
    ensures x * p % p == 0
  {
    DivUnique(x * p, p, x, 0);
  }

  /** The highest byte of a nonzero number is not zero. */
  lemma TopByte(x: nat, n: nat)
    requires HasBits(x, n) && x > 0
    ensures Word(x, (n + 7) / 8) >= 0x1_0000
  {
    SmallPowers();
    BytesOf(x, n);
    assert n > 0;
    var s := (n + 7) / 8;
    hide Pow2, HasBits;
    if s <= 3 {
      Pow2Add(8 * s - 8, 8 * (3 - s));
      TimesMonotone(Pow2(8 * s - 8), Pow2(8 * (3 - s)), x, Pow2(8 * (3 - s)));
    } else {
      Pow2Add(16, 8 * (s - 3));
      DivMod(x, Pow2(8 * (s - 3)));
      var q := x / Pow2(8 * (s - 3));
      QuotientPositive(x, Pow2(8 * (s - 3)));
      if q < 0x1_0000 {
        TimesStrictNext(q, 0x1_0000, Pow2(8 * (s - 3)));
      }
    }
  }

  lemma TimesStrictNext(q: nat, k: nat, p: nat)
    requires q < k && p > 0
    ensures q * p + p <= k * p
  {
    OneMore(q, p);
    TimesMonotone(q + 1, p, k, p);
  }

  /** A compact form that is read and written again comes back if and only if it is canonical. */
  method CompactRoundTrip(compact: nat) returns (again: nat)
    requires compact < BASE
    ensures again == compact <==> Canonical(compact)
  {
    hide Value, Weight, Pow2, Magnitude, Size, Mantissa, SignBit, HasBits, Word, Canonical, IsCompact;
    var r, negative, overflow := SetCompact(compact);
    ghost var n, x := 0, r.V();
    again, n := GetCompact(r, negative);
    r.InRange();
    RangeIs();
    if again == compact {
      FormsAreCanonical(again, x, n);
    } else if Canonical(compact) {
      ComesBack(compact, again, x, n, negative);
    }
  }

  lemma ComesBack(c: nat, again: nat, x: nat, n: nat, negative: bool)
    requires Canonical(c) && IsCompact(x, n, again) && x == Magnitude(c) % Pow2(256)
    requires (negative <==> Magnitude(c) != 0 && SignBit(c)) && (SignBit(again) <==> negative && Mantissa(again) != 0)
    ensures again == c
  {
    hide Pow2, Magnitude, Size, Mantissa, SignBit, HasBits, Word;
    if c == 0 {
      ZeroForm();
      ZeroMagnitude();
      assert x == 0;
      NothingIsZero(again, n);
    } else {
      SmallMod(Magnitude(c), Pow2(256));
      CanonicalComesBack(c, n);
      SameForm(c, again);
    }
  }

  lemma ZeroMagnitude()
    ensures Magnitude(0) == 0
  {
    ZeroForm();
    var p := Pow2(24);
    hide Pow2;
    DivUnique(0, p, 0, 0);
  }

  // The work of a block.

  /** A target that a block can have: positive and in range. */
  predicate ValidTarget(compact: nat) {
    0 < Magnitude(compact) < Pow2(256) && !SignBit(compact)
  }

  /** Whether a number is that of 64 bits: its high limbs are zero and the two low ones agree. */
  method EqualTo(a: Uint, x: nat) returns (r: bool)
    requires a.Valid() && a.pn.Length >= 2 && x < BASE * BASE
    ensures r <==> a.V() == x
  {
    hide Weight;
    ghost var s := a.pn[..];
    var i := a.pn.Length - 1;
    while i >= 2
      invariant 1 <= i < a.pn.Length && forall j :: i < j < a.pn.Length ==> a.pn[j] == 0
    {
      if a.pn[i] != 0 {
        LimbTooHigh(s, i);
        return false;
      }
      i := i - 1;
    }
    TwoLimbs(s);
    WeightNext(0);
    if a.pn[1] != x / BASE {
      return false;
    }
    if a.pn[0] != x % BASE {
      return false;
    }
    return true;
  }

  /** A number with a limb above the second is no 64-bit number. */
  lemma LimbTooHigh(s: seq<nat>, i: nat)
    requires 2 <= i < |s| && AreLimbs(s) && s[i] != 0
    ensures Value(s) >= BASE * BASE
  {
    hide Weight;
    LowSplit(s, i, |s|);
    LowSplit(s[i..], 1, |s| - i);
    LowNext(s[i..], 0);
    WeightNext(0);
    WeightNext(1);
    WeightAdd(2, i - 2);
    hide Low;
    var high := Low(s[i..], |s| - i);
    var rest := Low(s[i..][1..], |s| - i - 1);
    TimesMonotone(0, 0, Weight(1), rest);
    assert high >= 1;
    TimesMonotone(1, 1, Weight(i - 2), high);
    TimesMonotone(Weight(2), 1, Weight(2), Weight(i - 2));
    TimesMonotone(Weight(i), 1, Weight(i), high);
  }

  /** How often `t + 1` goes into the range, computed without leaving it. */
  lemma ProofIs(range: nat, t: nat)
    requires 0 < t && t + 1 < range
    ensures Quotient(range - 1 - t, t + 1) + 1 == Quotient(range, t + 1) < range
  {
    var d := t + 1;
    DivMod(range, d);
    QuotientPositive(range, d);
    var q, r := range / d, range % d;
    assert range - d == (q - 1) * d + r by { OneMore(q - 1, d); }
    DivUnique(range - d, d, q - 1, r);
    TimesMonotone(q, 2, q, d);
  }

  /** The expected number of hashes for a target: the range divided by the target plus one. */
  method GetBlockProof(compact: nat) returns (r: Uint)
    requires compact < BASE
    ensures fresh(r) && r.Valid() && r.pn.Length == WIDTH
    ensures r.V() == if ValidTarget(compact) then Quotient(Pow2(256), Magnitude(compact) + 1) else 0
  {
    hide Value, Weight, Pow2, Magnitude;
    RangeIs();
    var target, negative, overflow := SetCompact(compact);
    var zero := EqualTo(target, 0);
    if Magnitude(compact) < Pow2(256) {
      SmallMod(Magnitude(compact), Pow2(256));
    }
    if negative || overflow || zero {
      r := new Uint(WIDTH);
      return;
    }
    ghost var t := target.V();
    NotLargest(compact);
    ProofIs(Pow2(256), t);
    var one := new Uint(WIDTH);
    Assign(one, 1);
    r := target.Complement();
    var next := new Uint.Copy(target);
    next.Add(one);
    SmallMod(t + 1, Pow2(256));
    var ok := r.Divide(next);
    assert ok;
    r.Add(one);
    SmallMod(Quotient(Pow2(256), t + 1), Pow2(256));
  }
}
