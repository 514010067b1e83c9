/**
 * Streams of bits packed into bytes, the highest bit of a byte first: the
 * writer collects bits in a byte until it is full, the reader hands out the
 * bits of one byte after the other.
 */
module BitStream {
  import opened Arithmetic

  type Byte = x: int | 0 <= x < 0x100

  // Bits.

  /** The low `n` bits of a number, the highest first. */
  function BitsOf(x: nat, n: nat): (b: seq<bool>)
    ensures |b| == n
  {
    if n == 0 then [] else BitsOf(x / 2, n - 1) + [x % 2 == 1]
  }

  function ValueOf(b: seq<bool>): nat {
    if b == [] then 0 else 2 * ValueOf(b[..|b| - 1]) + (if b[|b| - 1] then 1 else 0)
  }

  lemma {:induction false} ValueOfBits(x: nat, n: nat)
    ensures ValueOf(BitsOf(x, n)) == x % Pow2(n)
  {
    if n > 0 {
      ValueOfBits(x / 2, n - 1);
      assert BitsOf(x, n)[..n - 1] == BitsOf(x / 2, n - 1);
      HalfMod(x, Pow2(n - 1));
    }
  }

  lemma HalfMod(x: nat, d: nat)
    requires d >= 1
    ensures x % (2 * d) == 2 * (x / 2 % d) + x % 2
  {
    var q, r := x / 2 / d, x / 2 % d;
    assert x / 2 == q * d + r;
    assert x == q * (2 * d) + (2 * r + x % 2);
    DivUnique(x, 2 * d, q, 2 * r + x % 2);
  }

  function Ones(n: nat): (b: seq<bool>)
    ensures |b| == n && forall i :: 0 <= i < n ==> b[i]
  {
    seq(n, _ => true)
  }

  /** The low bits of the all-ones word. */
  lemma {:induction false} AllOnes(n: nat)
    requires n <= 64
    ensures BitsOf(TWO_64 - 1, n) == Ones(n)
  {
    hide Pow2, BitsOf;
    Pow2Of64();
    AllOnesFrom(64, n);
  }

  lemma OddHalf(h: nat)
    ensures (2 * h + 1) / 2 == h && (2 * h + 1) % 2 == 1
  {
  }

  lemma {:induction false} AllOnesFrom(m: nat, n: nat)
    requires n <= m
    ensures BitsOf(Pow2(m) - 1, n) == Ones(n)
  {
    if n > 0 {
      AllOnesFrom(m - 1, n - 1);
      var q := Pow2(m - 1);
      assert Pow2(m) - 1 == 2 * (q - 1) + 1;
      hide Pow2;
      OddHalf(q - 1);
      assert Ones(n) == Ones(n - 1) + [true];
    }
  }

  /** A number modulo a power of two has the same low bits. */
  lemma {:induction false} BitsOfMod(x: nat, n: nat)
    ensures BitsOf(x % Pow2(n), n) == BitsOf(x, n)
  {
    if n > 0 {
      HalfMod(x, Pow2(n - 1));
      BitsOfMod(x / 2, n - 1);
      var y := x % Pow2(n);
      assert y / 2 == x / 2 % Pow2(n - 1) && y % 2 == x % 2;
    }
  }

  /** Bits fall into high and low ones. */
  lemma {:induction false} BitsSplit(x: nat, a: nat, b: nat)
    ensures BitsOf(x, a + b) == BitsOf(Quotient(x, Pow2(b)), a) + BitsOf(x, b)
    decreases b
  {
    if b == 0 {
      assert Quotient(x, 1) == x;
    } else {
      BitsSplit(x / 2, a, b - 1);
      HalfQuotient(x, Pow2(b - 1));
    }
  }

  lemma BitsJoin(h: nat, t: nat, a: nat, b: nat)
    requires t < Pow2(b)
    ensures BitsOf(h * Pow2(b) + t, a + b) == BitsOf(h, a) + BitsOf(t, b)
  {
    var p := Pow2(b);
    DivUnique(h * p + t, p, h, t);
    BitsSplit(h * p + t, a, b);
    BitsOfMod(h * p + t, b);
  }

  lemma {:induction false} BitsOfZero(n: nat)
    ensures BitsOf(0, n) == Zeros(n)
  {
    if n > 0 {
      BitsOfZero(n - 1);
      assert Zeros(n) == Zeros(n - 1) + [false];
    }
  }

  function Zeros(n: nat): (b: seq<bool>)
    ensures |b| == n && forall i :: 0 <= i < n ==> !b[i]
  {
    seq(n, _ => false)
  }

  lemma {:induction false} ValueJoin(u: seq<bool>, v: seq<bool>)
    ensures ValueOf(u + v) == ValueOf(u) * Pow2(|v|) + ValueOf(v)
    decreases |v|
  {
    if v == [] {
      assert u + v == u;
    } else {
      var w := v[..|v| - 1];
      assert (u + v)[..|u + v| - 1] == u + w;
      ValueJoin(u, w);
      Halved(ValueOf(u), Pow2(|w|));
    }
  }

  lemma {:induction false} ValueBound(b: seq<bool>)
    ensures ValueOf(b) < Pow2(|b|)
  {
    if b != [] {
      ValueBound(b[..|b| - 1]);
    }
  }

  // Bytes.

  /** The bits of some bytes. */
  function Bits(s: seq<Byte>): (b: seq<bool>)
    ensures |b| == 8 * |s|
  {
    if s == [] then [] else Bits(s[..|s| - 1]) + BitsOf(s[|s| - 1], 8)
  }

  lemma BitsAppend(s: seq<Byte>, x: Byte)
    ensures Bits(s + [x]) == Bits(s) + BitsOf(x, 8)
  {
    assert (s + [x])[..|s|] == s;
  }

  lemma {:induction false} BitsConcat(s: seq<Byte>, t: seq<Byte>)
    ensures Bits(s + t) == Bits(s) + Bits(t)
    decreases |t|
  {
    hide BitsOf, Bits;
    NoBytes();
    if t == [] {
      assert s + t == s;
    } else {
      var u, x := t[..|t| - 1], t[|t| - 1];
      assert s + t == s + u + [x] && t == u + [x];
      BitsConcat(s, u);
      BitsAppend(s + u, x);
      BitsAppend(u, x);
    }
  }

  lemma BitsFirst(s: seq<Byte>)
    requires s != []
    ensures Bits(s) == BitsOf(s[0], 8) + Bits(s[1..])
  {
    hide BitsOf, Bits;
    var none: seq<Byte> := [];
    NoBytes();
    BitsAppend(none, s[0]);
    assert none + [s[0]] == [s[0]] && s == [s[0]] + s[1..];
    BitsConcat([s[0]], s[1..]);
  }

  // Shifts of 64-bit words.

  function ShiftLeft(x: nat, k: nat): nat { x * Pow2(k) % TWO_64 }

  function ShiftRight(x: nat, k: nat): nat { Quotient(x, Pow2(k)) }

  /** Quotient and remainder of a multiple. */
  lemma Scale(x: nat, m: nat, p: nat)
    requires m > 0 && p > 0
    ensures m * p > 0 && x * p / (m * p) == x / m && x * p % (m * p) == x % m * p
  {
    DivMod(x, m);
    var q, r := x / m, x % m;
    TimesLess(0, m, p);
    TimesLess(r, m, p);
    ScaleSum(q, m, r, p);
    DivUnique(x * p, m * p, q, r * p);
  }

  lemma ScaleSum(q: int, m: int, r: int, p: int)
    ensures (q * m + r) * p == q * (m * p) + r * p
  {
    Associative(q, m, p);
    var x := q * m;
    assert (x + r) * p == x * p + r * p;
  }

  lemma TimesLess(a: nat, b: nat, p: nat)
    requires a < b && p > 0
    ensures 0 <= a * p && a * p + p <= b * p
  {
    var d := b - a - 1;
    ThreeTerms(a, d, p);
    assert d * p >= 0;
  }

  lemma ThreeTerms(a: int, d: int, p: int)
    ensures (a + 1 + d) * p == a * p + p + d * p
  {
  }

  /** The low `left` bits of a word, moved to its top. */
  lemma MovedUp(data: nat, left: nat)
    requires left <= 64
    ensures ShiftLeft(data, 64 - left) == data % Pow2(left) * Pow2(64 - left)
  {
    hide Pow2;
    Pow2Of64();
    Pow2Add(left, 64 - left);
    Scale(data, Pow2(left), Pow2(64 - left));
  }

  lemma Pow2Of64()
    ensures Pow2(64) == TWO_64
  {
    hide Pow2;
    Pow2Of32();
    Pow2Add(32, 32);
  }

  /** How many bits go into the current byte. */
  function Fit(offset: nat, left: nat): (n: nat)
    requires offset <= 8
    ensures n <= 8 - offset && n <= left && (n == 8 - offset || n == left)
  {
    if left <= 8 - offset then left else 8 - offset
  }

  /** The bits that the two shifts of the writer bring to their place in the current byte. */
  lemma WrittenPiece(data: nat, left: nat, offset: nat)
    requires left <= 64 && offset < 8
    ensures var n := Fit(offset, left);
      ShiftRight(ShiftLeft(data, 64 - left), 56 + offset) ==
        Quotient(data % Pow2(left), Pow2(left - n)) * Pow2(8 - offset - n)
  {
    hide Pow2;
    var n, y := Fit(offset, left), data % Pow2(left);
    MovedUp(data, left);
    if n == left {
      Pow2Add(8 - offset - n, 56 + offset);
      var a, b := Pow2(8 - offset - n), Pow2(56 + offset);
      Associative(y, a, b);
      Scale(y * a, 1, b);
      Pow2Zero();
    } else {
      Pow2Add(left - n, 64 - left);
      Scale(y, Pow2(left - n), Pow2(64 - left));
      Pow2Zero();
    }
  }

  // Writing.

  /** The first `offset` bits of a byte are those of `top`, and the others are not used yet. */
  ghost predicate Pending(buffer: nat, offset: nat, top: nat) {
    offset <= 8 && top < Pow2(offset) && buffer == top * Pow2(8 - offset)
  }

  lemma PendingTop(buffer: nat, offset: nat, top: nat)
    requires Pending(buffer, offset, top)
    ensures buffer < 0x100 && Quotient(buffer, Pow2(8 - offset)) == top
  {
    hide Pow2;
    DivUnique(buffer, Pow2(8 - offset), top, 0);
    Pow2Of32();
    Pow2Add(offset, 8 - offset);
    TimesLess(top, Pow2(offset), Pow2(8 - offset));
  }

  /** The bits that one round of writing takes from the low `left` bits of `data`. */
  function Taken(data: nat, left: nat, n: nat): nat
    requires n <= left
  {
    Quotient(data % Pow2(left), Pow2(left - n))
  }

  lemma TakenBits(data: nat, left: nat, n: nat)
    requires n <= left
    ensures Taken(data, left, n) < Pow2(n)
    ensures BitsOf(data, left) == BitsOf(Taken(data, left, n), n) + BitsOf(data, left - n)
  {
    hide Pow2, BitsOf;
    var y, m := data % Pow2(left), left - n;
    BitsOfMod(data, left);
    BitsSplit(y, n, m);
    BitsOfLowMod(data, left, m);
    Pow2Add(n, m);
    QuotientBelow(y, Pow2(m), Pow2(n));
  }

  lemma BitsOfLowMod(x: nat, n: nat, m: nat)
    requires m <= n
    ensures BitsOf(x % Pow2(n), m) == BitsOf(x, m)
  {
    hide Pow2, BitsOf;
    BitsOfMod(x, n);
    BitsSplit(x, n - m, m);
    BitsSplit(x % Pow2(n), n - m, m);
    var b := BitsOf(x, n);
    assert b[n - m..] == BitsOf(x, m) && b[n - m..] == BitsOf(x % Pow2(n), m);
  }

  /** One round of writing moves bits from the word into the byte. */
  lemma WriteRound(buffer: nat, offset: nat, top: nat, data: nat, left: nat)
    requires Pending(buffer, offset, top) && offset < 8 && left <= 64
    ensures var n := Fit(offset, left);
      var t := Taken(data, left, n);
      && Pending(Or(buffer, ShiftRight(ShiftLeft(data, 64 - left), 56 + offset)) % 0x100, offset + n, top * Pow2(n) + t)
      && BitsOf(top * Pow2(n) + t, offset + n) + BitsOf(data, left - n) == BitsOf(top, offset) + BitsOf(data, left)
  {
    hide Pow2, BitsOf, Or;
    var n := Fit(offset, left);
    var t, rest := Taken(data, left, n), 8 - offset - n;
    var p, q := Pow2(n), Pow2(rest);
    TakenBits(data, left, n);
    WrittenPiece(data, left, offset);
    Pow2Add(n, rest);
    TimesLess(t, p, q);
    OrDisjoint(top, t * q, 8 - offset);
    ScaleSum(top, p, t, q);
    TimesLess(top, Pow2(offset), p);
    Pow2Add(offset, n);
    PendingTop((top * p + t) * q, offset + n, top * p + t);
    BitsJoin(top, t, offset, n);
  }

  /** A byte that is written out early ends in zeros. */
  lemma FlushedByte(buffer: nat, offset: nat, top: nat)
    requires Pending(buffer, offset, top)
    ensures buffer < 0x100 && BitsOf(buffer, 8) == BitsOf(top, offset) + Zeros(8 - offset)
  {
    hide Pow2, BitsOf;
    PendingTop(buffer, offset, top);
    BitsJoin(top, 0, offset, 8 - offset);
    BitsOfZero(8 - offset);
  }

  class BitWriter {
    var bytes: seq<Byte>
    var buffer: Byte
    var offset: nat

    /** The bits written so far that do not fill a byte yet. */
    ghost function Top(): nat
      requires offset <= 8
      reads this
    {
      Quotient(buffer, Pow2(8 - offset))
    }

    ghost predicate Filled()
      reads this
    {
      offset <= 8 && Pending(buffer, offset, Top())
    }

    ghost predicate Valid()
      reads this
    {
      Filled() && offset < 8
    }

    /** All bits written so far. */
    ghost function Written(): seq<bool>
      requires Filled()
      reads this
    {
      Bits(bytes) + BitsOf(Top(), offset)
    }

    constructor ()
      ensures Valid() && Written() == [] && bytes == []
    {
      bytes, buffer, offset := [], 0, 0;
    }

    /** Appends the low `n` bits of a word, the highest first. */
    method Write(data: nat, n: nat)
      requires Valid() && data < TWO_64 && n <= 64
      modifies this
      ensures Valid() && Written() == old(Written()) + BitsOf(data, n)
    {
      hide Pow2, BitsOf, Bits, Pending;
      var left := n;
      while left > 0
        invariant Valid() && 0 <= left <= n
        invariant Written() + BitsOf(data, left) == old(Written()) + BitsOf(data, n)
      {
        left := Put(data, left);
        if offset == 8 {
          Flush();
        }
      }
      NoBits(data);
    }

    /** Moves bits from the low `left` bits of a word into the current byte. */
    method Put(data: nat, left: nat) returns (rest: nat)
      requires Valid() && data < TWO_64 && 0 < left <= 64
      modifies this`buffer, this`offset
      ensures Filled() && rest < left
      ensures Written() + BitsOf(data, rest) == old(Written()) + BitsOf(data, left)
    {
      hide Pow2, BitsOf, Bits, Or, Pending, ShiftLeft, ShiftRight, Taken;
      ghost var top, start := Top(), BitsOf(Top(), offset);
      WriteRound(buffer, offset, top, data, left);
      var count := Fit(offset, left);
      ghost var next := top * Pow2(count) + Taken(data, left, count);
      buffer := Or(buffer, ShiftRight(ShiftLeft(data, 64 - left), 56 + offset)) % 0x100;
      offset := offset + count;
      rest := left - count;
      PendingTop(buffer, offset, next);
      Regrouped(Bits(bytes), start, BitsOf(data, left), BitsOf(next, offset), BitsOf(data, rest));
    }

    /** Writes out the current byte, if it has any bits, filled up with zeros. */
    method Flush()
      requires Filled()
      modifies this
      ensures Valid() && offset == 0
      ensures Written() == old(Written()) + Zeros(if old(offset) == 0 then 0 else 8 - old(offset))
      ensures Written() == Bits(bytes)
    {
      hide Pow2, BitsOf, Bits;
      if offset == 0 {
        NoBits(Top());
        return;
      }
      FlushedByte(buffer, offset, Top());
      BitsAppend(bytes, buffer);
      bytes := bytes + [buffer];
      buffer := 0;
      offset := 0;
      NoTop();
      NoBits(Top());
    }
  }

  lemma NoBits(x: nat)
    ensures BitsOf(x, 0) == []
  {
  }

  lemma NoTop()
    ensures Pending(0, 0, 0) && Quotient(0, Pow2(8)) == 0
  {
  }

  lemma Regrouped(a: seq<bool>, b: seq<bool>, c: seq<bool>, d: seq<bool>, e: seq<bool>)
    requires d + e == b + c
    ensures a + d + e == a + b + c
  {
    assert a + d + e == a + (d + e) && a + b + c == a + (b + c);
  }

  // Reading.

  /** The bits that the two shifts of the reader take from the current byte. */
  lemma ReadPiece(buffer: nat, offset: nat, n: nat)
    requires offset + n <= 8
    ensures Quotient(buffer * Pow2(offset) % 0x100, Pow2(8 - n)) == Taken(buffer, 8 - offset, n)
  {
    hide Pow2;
    Pow2Of32();
    Pow2Add(8 - offset, offset);
    Scale(buffer, Pow2(8 - offset), Pow2(offset));
    Pow2Add(8 - offset - n, offset);
    Scale(buffer % Pow2(8 - offset), Pow2(8 - offset - n), Pow2(offset));
  }

  /** One round of reading moves bits from the byte into the word. */
  lemma ReadRound(got: seq<bool>, buffer: nat, offset: nat, n: nat)
    requires offset + n <= 8 && |got| + n <= 64
    ensures var t := Taken(buffer, 8 - offset, n);
      && BitsOf(buffer, 8 - offset) == BitsOf(t, n) + BitsOf(buffer, 8 - offset - n)
      && Or(ShiftLeft(ValueOf(got), n), Quotient(buffer * Pow2(offset) % 0x100, Pow2(8 - n))) ==
           ValueOf(got + BitsOf(t, n))
  {
    hide Pow2, BitsOf, Or, ValueOf;
    var t, v := Taken(buffer, 8 - offset, n), ValueOf(got);
    TakenBits(buffer, 8 - offset, n);
    ReadPiece(buffer, offset, n);
    ValueBound(got);
    Pow2Add(|got|, n);
    TimesLess(v, Pow2(|got|), Pow2(n));
    Pow2Of64();
    Pow2Monotone(|got| + n, 64);
    SmallMod(v * Pow2(n), TWO_64);
    OrDisjoint(v, t, n);
    ValueJoin(got, BitsOf(t, n));
    ValueOfBits(t, n);
    SmallMod(t, Pow2(n));
  }

  class BitReader {
    const bytes: seq<Byte>
    var pos: nat
    var buffer: Byte
    var offset: nat

    ghost predicate Valid()
      reads this
    {
      pos <= |bytes| && 1 <= offset <= 8
    }

    /** The bits that were not read yet. */
    ghost function Remaining(): seq<bool>
      requires pos <= |bytes| && offset <= 8
      reads this
    {
      BitsOf(buffer, 8 - offset) + Bits(bytes[pos..])
    }

    constructor (bytes: seq<Byte>)
      ensures Valid() && this.bytes == bytes && Remaining() == Bits(bytes)
    {
      this.bytes := bytes;
      pos, buffer, offset := 0, 0, 8;
      new;
      assert bytes[0..] == bytes;
      NoBits(0);
    }

    /** Takes the next byte of the stream; false at its end. */
    method Refill() returns (ok: bool)
      requires Valid() && offset == 8
      modifies this`pos, this`buffer, this`offset
      ensures pos <= |bytes| && offset <= 8 && Remaining() == old(Remaining())
      ensures ok ==> offset == 0
      ensures !ok ==> Valid() && Remaining() == []
    {
      hide BitsOf, Bits;
      NoBits(buffer);
      if pos == |bytes| {
        NoBytes();
        return false;
      }
      Fetch(bytes, pos);
      buffer := bytes[pos];
      pos := pos + 1;
      offset := 0;
      return true;
    }

    /** Takes bits from the current byte. */
    method Take(count: nat, data: nat, ghost got: seq<bool>) returns (data': nat, ghost got': seq<bool>)
      requires pos <= |bytes| && 0 < count && offset + count <= 8
      requires data == ValueOf(got) && |got| + count <= 64
      modifies this`offset
      ensures Valid() && |got'| == |got| + count && data' == ValueOf(got')
      ensures got' + Remaining() == got + old(Remaining())
    {
      hide Pow2, BitsOf, Bits, Or, ValueOf;
      ReadRound(got, buffer, offset, count);
      got' := got + BitsOf(Taken(buffer, 8 - offset, count), count);
      data' := Or(ShiftLeft(data, count), Quotient(buffer * Pow2(offset) % 0x100, Pow2(8 - count)));
      offset := offset + count;
    }

    /** The next `n` bits as a number; false when there are not so many. */
    method Read(n: nat) returns (ok: bool, data: nat)
      requires Valid() && n <= 64
      modifies this
      ensures Valid() && (ok <==> n <= |old(Remaining())|)
      ensures ok ==> data == ValueOf(old(Remaining())[..n]) && Remaining() == old(Remaining())[n..]
    {
      hide BitsOf, Bits, ValueOf;
      ghost var start := Remaining();
      ghost var got: seq<bool> := [];
      data := 0;
      NoValue();
      var left := n;
      while left > 0
        invariant Valid() && 0 <= left <= n && |got| == n - left
        invariant start == got + Remaining() && data == ValueOf(got)
      {
        if offset == 8 {
          ok := Refill();
          if !ok {
            return;
          }
        }
        var count := Fit(offset, left);
        data, got := Take(count, data, got);
        left := left - count;
      }
      ok := true;
      assert start[..n] == got && start[n..] == Remaining();
    }
  }

  lemma NoValue()
    ensures ValueOf([]) == 0
  {
  }

  lemma NoBytes()
    ensures Bits([]) == []
  {
  }

  lemma Fetch(s: seq<Byte>, pos: nat)
    requires pos < |s|
    ensures Bits(s[pos..]) == BitsOf(s[pos], 8) + Bits(s[pos + 1..])
  {
    BitsFirst(s[pos..]);
    assert s[pos..][1..] == s[pos + 1..];
  }
}
