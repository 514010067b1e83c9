/**
 * Golomb-coded sets: a set of hashes, sorted, stored as Golomb-Rice codes of
 * the differences, and queried by walking the codes beside sorted queries.
 */
module Gcs {
  import opened Arithmetic
  import opened Common
  import opened BitStream
  import CompactSize

  // Scaling a 64-bit hash without 128-bit arithmetic.

  lemma Halves(x: int)
    ensures x == x / TWO_32 * TWO_32 + x % TWO_32
  {
  }

  lemma ProductBound(a: int, b: int, m: int, n: int)
    requires 0 <= a <= m && 0 <= b <= n
    ensures 0 <= a * b <= m * n
  {
    assert a * b <= m * b;
  }

  /** The partial products of two numbers split in halves of 32 bits. */
  lemma Expand(a: int, b: int, c: int, d: int)
    ensures (a * TWO_32 + b) * (c * TWO_32 + d) == a * c * TWO_64 + (a * d + b * c) * TWO_32 + b * d
  {
    var l, r := a * TWO_32, c * TWO_32;
    assert (l + b) * (r + d) == l * r + l * d + b * r + b * d;
    assert l * r == a * c * TWO_64;
    assert l * d == a * d * TWO_32 && b * r == b * c * TWO_32;
  }

  lemma UpperHalf(ac: int, ad: int, bc: int, bd: int)
    requires 0 <= bd
    ensures var mid := bd / TWO_32 + bc % TWO_32 + ad % TWO_32;
      (ac * TWO_64 + (ad + bc) * TWO_32 + bd) / TWO_64 == ac + bc / TWO_32 + ad / TWO_32 + mid / TWO_32
  {
    var mid := bd / TWO_32 + bc % TWO_32 + ad % TWO_32;
    Halves(ad);
    Halves(bc);
    Halves(bd);
    Halves(mid);
    var upper := ac + bc / TWO_32 + ad / TWO_32 + mid / TWO_32;
    var low := mid % TWO_32 * TWO_32 + bd % TWO_32;
    assert ac * TWO_64 + (ad + bc) * TWO_32 + bd == upper * TWO_64 + low;
    DivUnique(ac * TWO_64 + (ad + bc) * TWO_32 + bd, TWO_64, upper, low);
  }

  /** The upper 64 bits of a product of 64-bit numbers, from 32-bit pieces; nothing overflows. */
  method MapIntoRange(x: nat, n: nat) returns (r: nat)
    requires x < TWO_64 && n < TWO_64
    ensures r == x * n / TWO_64
    ensures n > 0 ==> r < n
  {
    var xHi, xLo, nHi, nLo := x / TWO_32, x % TWO_32, n / TWO_32, n % TWO_32;
    ProductBound(xHi, nHi, TWO_32 - 1, TWO_32 - 1);
    ProductBound(xHi, nLo, TWO_32 - 1, TWO_32 - 1);
    ProductBound(xLo, nHi, TWO_32 - 1, TWO_32 - 1);
    ProductBound(xLo, nLo, TWO_32 - 1, TWO_32 - 1);
    var ac, ad, bc, bd := xHi * nHi, xHi * nLo, xLo * nHi, xLo * nLo;
    assert ac < TWO_64 && ad < TWO_64 && bc < TWO_64 && bd < TWO_64;
    var mid := bd / TWO_32 + bc % TWO_32 + ad % TWO_32;
    assert mid < TWO_64;
    Halves(x);
    Halves(n);
    Expand(xHi, xLo, nHi, nLo);
    UpperHalf(ac, ad, bc, bd);
    BelowRange(x, n);
    r := ac + bc / TWO_32 + ad / TWO_32 + mid / TWO_32;
    assert r < TWO_64;
  }

  lemma BelowRange(x: nat, n: nat)
    requires x < TWO_64 && n < TWO_64
    ensures 0 <= x * n / TWO_64 && (n > 0 ==> x * n / TWO_64 < n) && (n == 0 ==> x * n / TWO_64 == 0)
  {
    ProductBound(x, n, TWO_64 - 1, n);
    assert n > 0 ==> x * n < n * TWO_64;
  }

  // Golomb-Rice codes.

  /** The code of a number: its quotient in unary, a zero, its remainder in `p` bits. */
  function Code(p: nat, x: nat): seq<bool> {
    Ones(Quotient(x, Pow2(p))) + [false] + BitsOf(x, p)
  }

  /** Appends the code of a number; the ones of its quotient are written 64 at a time. */
  method GolombRiceEncode(w: BitWriter, p: nat, x: nat)
    requires w.Valid() && p <= 64 && x < TWO_64
    modifies w
    ensures w.Valid() && w.Written() == old(w.Written()) + Code(p, x)
  {
    hide BitsOf, Bits, Pending, Pow2, Ones;
    var q := Quotient(x, Pow2(p));
    ghost var start := w.Written();
    WriteOnes(w, q);
    OneBit();
    w.Write(0, 1);
    w.Write(x, p);
    Regroup(start, Ones(q), [false], BitsOf(x, p));
  }

  /** The ones of a quotient. */
  method WriteOnes(w: BitWriter, all: nat)
    requires w.Valid()
    modifies w
    ensures w.Valid() && w.Written() == old(w.Written()) + Ones(all)
  {
    hide BitsOf, Bits, Pending, Pow2;
    var q := all;
    ghost var start := w.Written();
    assert Ones(0) == [];
    while q > 0
      invariant w.Valid() && 0 <= q <= all && w.Written() == start + Ones(all - q)
    {
      var n := if q <= 64 then q else 64;
      AllOnes(n);
      w.Write(TWO_64 - 1, n);
      assert Ones(all - q) + Ones(n) == Ones(all - (q - n));
      assert start + Ones(all - q) + Ones(n) == start + (Ones(all - q) + Ones(n));
      q := q - n;
    }
  }

  lemma Regroup(a: seq<bool>, b: seq<bool>, c: seq<bool>, d: seq<bool>)
    ensures a + b + c + d == a + (b + c + d)
  {
  }

  lemma OneBit()
    ensures BitsOf(0, 1) == [false]
  {
    assert BitsOf(0, 0) == [];
  }

  /** `(q << p) + r` in 64 bits. */
  function Combined(p: nat, q: nat, r: nat): nat {
    ((q * Pow2(p)) % TWO_64 + r) % TWO_64
  }

  /** Reading a code: the number and what is left; `None` when the bits run out. */
  function Decode(p: nat, b: seq<bool>): Option<(nat, seq<bool>)> {
    var q := Leading(b);
    if |b| < q + 1 + p then None
    else Some((Combined(p, q, ValueOf(b[q + 1..q + 1 + p])), b[q + 1 + p..]))
  }

  /** How many ones a bit sequence starts with. */
  function Leading(b: seq<bool>): (n: nat)
    ensures n <= |b| && (forall i :: 0 <= i < n ==> b[i]) && (n < |b| ==> !b[n])
  {
    if b == [] || !b[0] then 0 else 1 + Leading(b[1..])
  }

  lemma LeadingIs(b: seq<bool>, n: nat)
    requires n < |b| && !b[n] && forall i :: 0 <= i < n ==> b[i]
    ensures Leading(b) == n
  {
  }

  /** Decoding undoes encoding and leaves what follows. */
  lemma DecodeCode(p: nat, x: nat, rest: seq<bool>)
    requires x < TWO_64
    ensures Decode(p, Code(p, x) + rest) == Some((x, rest))
  {
    hide BitsOf, ValueOf, Leading;
    var b, q := Code(p, x) + rest, Quotient(x, Pow2(p));
    LeadingIs(b, q);
    assert b[q + 1..q + 1 + p] == BitsOf(x, p) && b[q + 1 + p..] == rest;
    ValueOfBits(x, p);
    QuotientFits(x, Pow2(p));
  }

  lemma QuotientFits(x: nat, d: nat)
    requires x < TWO_64 && d >= 1
    ensures ((x / d * d) % TWO_64 + x % d) % TWO_64 == x
  {
    assert x == x / d * d + x % d;
    assert 0 <= x / d * d <= x;
  }

  /** The next code; false when the bits run out. */
  method GolombRiceDecode(r: BitReader, p: nat) returns (ok: bool, x: nat)
    requires r.Valid() && p <= 64
    modifies r
    ensures r.Valid()
    ensures var d := Decode(p, old(r.Remaining()));
      (ok <==> d.Some?) && (ok ==> x == d.value.0 && r.Remaining() == d.value.1)
  {
    hide ValueOf, Pow2, Leading, Combined, Bits, BitsOf;
    ghost var start := r.Remaining();
    var q, one := 0, 0;
    x := 0;
    while true
      invariant r.Valid() && q <= |start| && r.Remaining() == start[q..] && forall i :: 0 <= i < q ==> start[i]
      decreases |start| - q
    {
      ok, one := r.Read(1);
      if !ok {
        LeadingAll(start);
        return;
      }
      SingleBit(start, q);
      assert start[q..][..1] == start[q..q + 1] && start[q..][1..] == start[q + 1..];
      if one != 1 {
        break;
      }
      q := q + 1;
    }
    LeadingIs(start, q);
    var low;
    ok, low := r.Read(p);
    if ok {
      assert start[q + 1..][..p] == start[q + 1..q + 1 + p] && start[q + 1..][p..] == start[q + 1 + p..];
      x := Combined(p, q, low);
    }
  }

  lemma LeadingAll(b: seq<bool>)
    requires forall i :: 0 <= i < |b| ==> b[i]
    ensures Leading(b) == |b|
  {
  }

  lemma SingleBit(b: seq<bool>, i: nat)
    requires i < |b|
    ensures ValueOf(b[i..i + 1]) == 1 <==> b[i]
  {
    assert b[i..i + 1][..0] == [];
  }

  // Sorted sequences and their differences.

  ghost predicate Sorted(s: seq<nat>) {
    forall i, j :: 0 <= i < j < |s| ==> s[i] <= s[j]
  }

  predicate Ascends(last: nat, s: seq<nat>)
    decreases |s|
  {
    s == [] || (last <= s[0] && Ascends(s[0], s[1..]))
  }

  lemma {:induction false} SortedAscends(last: nat, s: seq<nat>)
    requires Sorted(s) && (s != [] ==> last <= s[0])
    ensures Ascends(last, s)
    decreases |s|
  {
    if s != [] {
      SortedAscends(s[0], s[1..]);
    }
  }

  /** The codes of the steps from `last` through a sorted sequence. */
  function CodesOf(p: nat, last: nat, s: seq<nat>): seq<bool>
    requires Ascends(last, s)
    decreases |s|
  {
    if s == [] then [] else Code(p, s[0] - last) + CodesOf(p, s[0], s[1..])
  }

  /** The running sums of `n` codes from `value`; sums are kept in 64 bits. */
  function Sums(p: nat, b: seq<bool>, n: nat, value: nat): Option<seq<nat>> {
    if n == 0 then Some([])
    else
      match Decode(p, b)
      case None => None
      case Some((x, rest)) =>
        var v := (value + x) % TWO_64;
        match Sums(p, rest, n - 1, v)
        case None => None
        case Some(s) => Some([v] + s)
  }

  /** The codes of a sorted sequence give it back. */
  lemma {:induction false} SumsOfCodes(p: nat, last: nat, s: seq<nat>, rest: seq<bool>)
    requires Ascends(last, s)
    requires forall i :: 0 <= i < |s| ==> s[i] < TWO_64
    ensures Sums(p, CodesOf(p, last, s) + rest, |s|, last) == Some(s)
    decreases |s|
  {
    hide Decode, Code, CodesOf, Sums, Ascends;
    if s == [] {
      NoCodesLeft(p, last, rest);
    } else {
      AscendsOn(last, s);
      var tail := CodesOf(p, s[0], s[1..]) + rest;
      CodesSplit(p, last, s, rest);
      DecodeCode(p, s[0] - last, tail);
      SumsOfCodes(p, s[0], s[1..], rest);
      SumsNext(p, CodesOf(p, last, s) + rest, s[0] - last, tail, |s| - 1, last, s[1..]);
      assert s == [s[0]] + s[1..];
    }
  }

  lemma AscendsOn(last: nat, s: seq<nat>)
    requires Ascends(last, s) && s != []
    ensures last <= s[0] && Ascends(s[0], s[1..])
  {
  }

  lemma NoCodesLeft(p: nat, last: nat, rest: seq<bool>)
    ensures Sums(p, CodesOf(p, last, []) + rest, 0, last) == Some([])
  {
  }

  lemma SumsFirst(p: nat, b: seq<bool>, n: nat, value: nat, r: seq<nat>)
    requires n > 0 && Sums(p, b, n, value) == Some(r) && |r| == n
    ensures Decode(p, b).Some?
    ensures var (x, tail) := Decode(p, b).value;
      r[0] == (value + x) % TWO_64 && Sums(p, tail, n - 1, r[0]) == Some(r[1..])
  {
    hide Decode;
  }

  lemma SumsNext(p: nat, b: seq<bool>, x: nat, tail: seq<bool>, n: nat, value: nat, r: seq<nat>)
    requires Decode(p, b) == Some((x, tail)) && value + x < TWO_64 && Sums(p, tail, n, value + x) == Some(r)
    ensures Sums(p, b, n + 1, value) == Some([value + x] + r)
  {
    hide Decode;
    SmallMod(value + x, TWO_64);
  }

  lemma CodesSplit(p: nat, last: nat, s: seq<nat>, rest: seq<bool>)
    requires Ascends(last, s) && s != []
    ensures CodesOf(p, last, s) + rest == Code(p, s[0] - last) + (CodesOf(p, s[0], s[1..]) + rest)
  {
    hide Code;
  }

  // Sorting.

  lemma PlacedSorted(s: seq<nat>, k: nat, v: nat)
    requires Sorted(s) && k <= |s| && (k > 0 ==> s[k - 1] <= v) && (k < |s| ==> v < s[k])
    ensures Sorted(s[..k] + [v] + s[k..])
  {
    var r := s[..k] + [v] + s[k..];
    forall i, j | 0 <= i < j < |r| ensures r[i] <= r[j] {
      assert r[i] == if i < k then s[i] else if i == k then v else s[i - 1];
      assert r[j] == if j < k then s[j] else if j == k then v else s[j - 1];
    }
  }

  lemma PlacedMembers(s: seq<nat>, k: nat, v: nat)
    requires k <= |s|
    ensures multiset(s[..k] + [v] + s[k..]) == multiset(s) + multiset{v}
  {
    assert s == s[..k] + s[k..];
  }

  /** Inserts a value into a sorted sequence. */
  method Place(s: seq<nat>, v: nat) returns (r: seq<nat>)
    requires Sorted(s)
    ensures Sorted(r) && multiset(r) == multiset(s) + multiset{v}
  {
    hide Sorted;
    var k := |s|;
    while k > 0 && s[k - 1] > v
      invariant 0 <= k <= |s| && (k < |s| ==> v < s[k])
    {
      k := k - 1;
    }
    PlacedSorted(s, k, v);
    PlacedMembers(s, k, v);
    r := s[..k] + [v] + s[k..];
  }

  lemma SameMembers(a: seq<nat>, b: seq<nat>, v: nat)
    requires multiset(a) == multiset(b)
    ensures v in a <==> v in b
  {
    assert v in a <==> v in multiset(a);
    assert v in b <==> v in multiset(b);
  }

  ghost predicate Meet(a: seq<nat>, b: seq<nat>) {
    exists v :: v in a && v in b
  }

  /** The answer of a walk beside sorted queries: some value that no earlier one exceeds is among them. */
  ghost predicate Found(values: seq<nat>, queries: seq<nat>) {
    exists i :: 0 <= i < |values| && values[i] in queries && Highest(values, i)
  }

  ghost predicate Highest(values: seq<nat>, i: nat)
    requires i < |values|
  {
    forall j :: 0 <= j < i ==> values[j] <= values[i]
  }

  /** For sorted values that is whether the two lists have a number in common. */
  lemma SortedFound(values: seq<nat>, queries: seq<nat>)
    requires Sorted(values)
    ensures Found(values, queries) <==> Meet(values, queries)
  {
    if v :| v in values && v in queries {
      var i :| 0 <= i < |values| && values[i] == v;
      assert Highest(values, i);
    }
  }

  class Filter<E> {
    const hash: E -> nat
    const p: nat
    const m: nat
    var n: nat
    var f: nat
    var encoded: seq<Byte>

    constructor (hash: E -> nat, p: nat, m: nat)
      requires p <= 64 && m < TWO_32
      ensures this.hash == hash && this.p == p && this.m == m && Valid() && encoded == [] && Values() == []
    {
      this.hash := hash;
      this.p := p;
      this.m := m;
      n, f, encoded := 0, 0, [];
    }

    ghost predicate Shape()
      reads this
    {
      p <= 64 && m < TWO_32 && n < TWO_32 && f == n * m && f < TWO_64
    }

    /** A filter without an encoding is empty; any other holds its number of elements and as many codes. */
    ghost predicate Valid()
      reads this
    {
      && Shape()
      && (encoded == [] ==> n == 0)
      && (encoded != [] ==> CompactSize.Encoded(n) <= encoded && Sums(p, Bits(Codes()), n, 0).Some?)
    }

    /** The bytes after the number of elements. */
    ghost function Codes(): seq<Byte>
      requires n < TWO_64 && CompactSize.Encoded(n) <= encoded
      reads this
    {
      encoded[|CompactSize.Encoded(n)|..]
    }

    /** The values that the codes stand for. */
    ghost function Values(): seq<nat>
      requires Valid()
      reads this
    {
      if encoded == [] then [] else Sums(p, Bits(Codes()), n, 0).value
    }

    /** Reading the number of elements back fails on an empty encoding and above the limit on sizes. */
    predicate Unreadable()
      reads this
    {
      encoded == [] || n > MAX_SIZE
    }

    /** The hash of an element, scaled to the range of the filter. */
    function InRange(e: E): nat
      reads this
    {
      hash(e) % TWO_64 * f / TWO_64
    }

    method HashToRange(e: E) returns (r: nat)
      requires f < TWO_64
      ensures r == InRange(e) && r < TWO_64
    {
      BelowRange(hash(e) % TWO_64, f);
      r := MapIntoRange(hash(e) % TWO_64, f);
    }

    method BuildHashedSet(elements: seq<E>) returns (hashed: seq<nat>)
      requires f < TWO_64
      ensures Sorted(hashed) && |hashed| == |elements|
      ensures forall i :: 0 <= i < |hashed| ==> hashed[i] < TWO_64
      ensures forall v :: v in hashed <==> exists i :: 0 <= i < |elements| && InRange(elements[i]) == v
    {
      hashed := [];
      ghost var plain: seq<nat> := [];
      for i := 0 to |elements|
        invariant |plain| == i && forall j :: 0 <= j < i ==> plain[j] == InRange(elements[j]) && plain[j] < TWO_64
        invariant Sorted(hashed) && multiset(hashed) == multiset(plain)
      {
        var h := HashToRange(elements[i]);
        hashed := Place(hashed, h);
        plain := plain + [h];
      }
      assert |hashed| == |multiset(hashed)| == |multiset(plain)| == |plain|;
      forall v ensures v in hashed <==> v in plain {
        SameMembers(hashed, plain, v);
      }
      forall i | 0 <= i < |hashed| ensures hashed[i] < TWO_64 {
        assert hashed[i] in plain;
      }
    }

    /** The bytes of the codes of a sorted sequence. */
    method Encode(values: seq<nat>) returns (bytes: seq<Byte>)
      requires p <= 64 && Sorted(values) && Ascends(0, values) && forall i :: 0 <= i < |values| ==> values[i] < TWO_64
      ensures exists k :: 0 <= k < 8 && Bits(bytes) == CodesOf(p, 0, values) + Zeros(k)
    {
      hide Code, Bits, BitsOf, Pending;
      var w := new BitWriter();
      var last := 0;
      assert values[0..] == values;
      for i := 0 to |values|
        invariant fresh(w) && w.Valid() && Ascends(last, values[i..])
        invariant w.Written() + CodesOf(p, last, values[i..]) == CodesOf(p, 0, values)
      {
        assert values[i..][1..] == values[i + 1..];
        var delta := values[i] - last;
        GolombRiceEncode(w, p, delta);
        last := values[i];
      }
      assert values[|values|..] == [] && w.Written() + [] == w.Written();
      w.Flush();
      bytes := w.bytes;
    }

    /** Builds the filter of some elements; false if there are too many. */
    method Build(elements: seq<E>) returns (ok: bool)
      requires p <= 64 && m < TWO_32
      modifies this
      ensures ok <==> |elements| < TWO_32
      ensures ok ==>
        && Valid() && n == |elements| && encoded != [] && Sorted(Values())
        && (forall v :: v in Values() <==> exists i :: 0 <= i < |elements| && InRange(elements[i]) == v)
        && ReadsExactly(p, Bits(Codes()), n)
    {
      hide Sums, Rest, Bits;
      n := |elements| % TWO_32;
      if n != |elements| {
        return false;
      }
      RangeFits(n, m);
      f := n * m;
      encoded := CompactSize.Encoded(n);
      ok := true;
      if elements == [] {
        assert Codes() == [];
        NoCodes(p);
        return;
      }
      var hashed := BuildHashedSet(elements);
      SortedAscends(0, hashed);
      var bytes := Encode(hashed);
      var k :| 0 <= k < 8 && Bits(bytes) == CodesOf(p, 0, hashed) + Zeros(k);
      encoded := encoded + bytes;
      assert Codes() == bytes;
      SumsOfCodes(p, 0, hashed, Zeros(k));
      RestOfCodes(p, 0, hashed, Zeros(k));
    }

    /** Takes over an encoded filter, which must hold exactly its codes. */
    method Load(bytes: seq<Byte>) returns (ok: bool)
      requires p <= 64 && m < TWO_32
      modifies this
      ensures ok <==> Acceptable(p, bytes)
      ensures ok ==> Valid() && encoded == bytes && CompactSize.Decoded(bytes) == Some((n, Codes()))
    {
      hide Decode, Bits, CompactSize.Encoded, CompactSize.Decoded;
      encoded := bytes;
      var size := CompactSize.Decoded(bytes);
      if size.None? {
        return false;
      }
      CompactSize.EncodeDecoded(bytes);
      var (count, codes) := size.value;
      n := count % TWO_32;
      // The second size test of the source cannot fail, since the limit on sizes is lower.
      assert n == count;
      RangeFits(n, m);
      f := n * m;
      assert Codes() == codes;
      var reader := new BitReader(codes);
      for i := 0 to n
        invariant fresh(reader) && reader.Valid() && reader.bytes == codes && Shape() && n == count && encoded == bytes
        invariant Rest(p, Bits(codes), n) == Rest(p, reader.Remaining(), n - i)
      {
        var x;
        ok, x := GolombRiceDecode(reader, p);
        if !ok {
          return;
        }
      }
      ok := reader.pos == |codes|;
      LeftOver(reader);
      RestSums(p, Bits(codes), n, 0);
    }

    /** Walks the codes beside a sorted list of queries. */
    method MatchInternal(queries: seq<nat>) returns (threw: bool, r: bool)
      requires Valid() && Sorted(queries)
      ensures threw <==> Unreadable()
      ensures !threw ==> (r <==> Found(Values(), queries))
    {
      hide Decode, Bits, CompactSize.Encoded, CompactSize.Decoded, Sums;
      var size := CompactSize.Decoded(encoded);
      if encoded != [] {
        CompactSize.DecodeEncoded(n, Codes());
        assert encoded == CompactSize.Encoded(n) + Codes();
      } else {
        CompactSize.DecodeNothing();
      }
      if size.None? {
        return true, false;
      }
      var (count, codes) := size.value;
      assert count == n;
      r := Walk(codes, queries);
      return false, r;
    }

    /** The loop over the codes. */
    method Walk(codes: seq<Byte>, queries: seq<nat>) returns (r: bool)
      requires p <= 64 && Sorted(queries) && Sums(p, Bits(codes), n, 0).Some?
      ensures r <==> Found(Sums(p, Bits(codes), n, 0).value, queries)
    {
      hide Decode, Bits, Sums, Passed, Found, Highest;
      var reader := new BitReader(codes);
      ghost var values := Sums(p, Bits(codes), n, 0).value;
      SumsSize(p, Bits(codes), n, 0);
      assert values[0..] == values;
      NonePassed(values, queries);
      var value: nat, index := 0, 0;
      for i := 0 to n
        invariant fresh(reader) && reader.Valid() && 0 <= index <= |queries|
        invariant Sums(p, reader.Remaining(), n - i, value) == Some(values[i..])
        invariant Passed(values, queries, i, index)
      {
        SumsFirst(p, reader.Remaining(), n - i, value, values[i..]);
        var ok, delta := GolombRiceDecode(reader, p);
        value := (value + delta) % TWO_64;
        assert values[i..][1..] == values[i + 1..] && values[i..][0] == values[i];
        ghost var before := index;
        var found;
        index, found := SkipBelow(queries, index, value);
        PassedMore(values, queries, i, before, index);
        if index == |queries| {
          NoneLeft(values, queries, i);
          return false;
        }
        if found {
          FoundAt(values, queries, i);
          return true;
        }
      }
      AllPassed(values, queries, index);
      return false;
    }

    /** Whether an element may be in the set. */
    method Match(e: E) returns (threw: bool, r: bool)
      requires Valid()
      ensures threw <==> Unreadable()
      ensures !threw ==> (r <==> exists i :: 0 <= i < |Values()| && Values()[i] == InRange(e) && Highest(Values(), i))
    {
      var query := HashToRange(e);
      threw, r := MatchInternal([query]);
    }

    /** Whether any of some elements may be in the set. */
    method MatchAny(elements: seq<E>) returns (threw: bool, r: bool)
      requires Valid()
      ensures threw <==> Unreadable()
      ensures !threw ==> (r <==> Answers(this, elements))
    {
      var queries := BuildHashedSet(elements);
      threw, r := MatchInternal(queries);
      ghost var values := Values();
      if Found(values, queries) {
        var i :| 0 <= i < |values| && values[i] in queries && Highest(values, i);
        var k :| 0 <= k < |elements| && InRange(elements[k]) == values[i];
      }
      if i, k :| 0 <= i < |values| && 0 <= k < |elements| && values[i] == InRange(elements[k]) && Highest(values, i) {
        assert InRange(elements[k]) in queries;
      }
    }
  }

  /** After `i` values: every skipped query is below one of them, and none of them answered. */
  ghost predicate Passed(values: seq<nat>, queries: seq<nat>, i: nat, index: nat)
    requires i <= |values| && index <= |queries|
  {
    && (forall j :: 0 <= j < index ==> exists k :: 0 <= k < i && queries[j] < values[k])
    && (forall k, j :: 0 <= k < i && index <= j < |queries| ==> values[k] < queries[j])
    && (forall k :: 0 <= k < i && values[k] in queries ==> !Highest(values, k))
  }

  lemma NonePassed(values: seq<nat>, queries: seq<nat>)
    ensures Passed(values, queries, 0, 0)
  {
  }

  lemma AllPassed(values: seq<nat>, queries: seq<nat>, index: nat)
    requires index <= |queries| && Passed(values, queries, |values|, index)
    ensures !Found(values, queries)
  {
    hide Highest;
  }

  lemma FoundAt(values: seq<nat>, queries: seq<nat>, i: nat)
    requires i < |values| && values[i] in queries && Highest(values, i)
    ensures Found(values, queries)
  {
    hide Highest;
  }

  lemma PassedMore(values: seq<nat>, queries: seq<nat>, i: nat, before: nat, index: nat)
    requires i < |values| && before <= index <= |queries| && Sorted(queries)
    requires Passed(values, queries, i, before)
    requires forall j :: before <= j < index ==> queries[j] < values[i]
    requires index < |queries| ==> values[i] <= queries[index]
    ensures forall j :: 0 <= j < index ==> exists k :: 0 <= k < i + 1 && queries[j] < values[k]
    ensures index < |queries| && values[i] == queries[index] ==> Highest(values, i)
    ensures index == |queries| || values[i] < queries[index] ==> Passed(values, queries, i + 1, index)
  {
    forall j | 0 <= j < index ensures exists k :: 0 <= k < i + 1 && queries[j] < values[k] {
      if j < before {
        var k :| 0 <= k < i && queries[j] < values[k];
        assert 0 <= k < i + 1;
      } else {
        assert queries[j] < values[i];
      }
    }
    if index == |queries| || values[i] < queries[index] {
      if values[i] in queries {
        hide Highest;
        PassedIsLower(values, queries, i, index);
      }
    }
  }

  lemma PassedIsLower(values: seq<nat>, queries: seq<nat>, i: nat, index: nat)
    requires i < |values| && index <= |queries| && Sorted(queries) && values[i] in queries
    requires forall j :: 0 <= j < index ==> exists k :: 0 <= k < i + 1 && queries[j] < values[k]
    requires index < |queries| ==> values[i] < queries[index]
    ensures !Highest(values, i)
  {
    var j :| 0 <= j < |queries| && queries[j] == values[i];
    assert j < index;
    var k :| 0 <= k < i + 1 && queries[j] < values[k];
  }

  /** Moves past the queries below a value. */
  method SkipBelow(queries: seq<nat>, start: nat, value: nat) returns (index: nat, found: bool)
    requires start <= |queries|
    ensures start <= index <= |queries|
    ensures forall j :: start <= j < index ==> queries[j] < value
    ensures index < |queries| ==> queries[index] >= value && (found <==> queries[index] == value)
  {
    index, found := start, false;
    while true
      invariant start <= index <= |queries| && forall j :: start <= j < index ==> queries[j] < value
      decreases |queries| - index
    {
      if index == |queries| {
        return;
      }
      if queries[index] == value {
        return index, true;
      }
      if queries[index] > value {
        return;
      }
      index := index + 1;
    }
  }

  /**
   * A filter built from elements finds each of them, also once it is read back
   * from its encoding. Above the limit on sizes it can be built, but neither
   * queried nor read back.
   */
  method BuildAndQuery<E>(hash: E -> nat, p: nat, m: nat, elements: seq<E>, query: seq<E>)
    returns (ok: bool, threw: bool, one: bool, loaded: bool, again: bool)
    requires p <= 64 && m < TWO_32
    ensures ok <==> |elements| < TWO_32
    ensures ok ==> (threw <==> |elements| > MAX_SIZE) && (loaded <==> !threw)
    ensures loaded ==> one == again
    ensures loaded && (exists i, j :: 0 <= i < |query| && 0 <= j < |elements| && query[i] == elements[j]) ==> one
  {
    hide Bits, CompactSize.Decoded, CompactSize.Encoded, Sums, Rest;
    var filter := new Filter(hash, p, m);
    ok := filter.Build(elements);
    threw, one, loaded, again := false, false, false, false;
    if !ok {
      return;
    }
    threw, one := filter.MatchAny(query);
    BuiltFinds(filter, elements, query);
    var other;
    loaded, other := Reload(filter);
    if loaded {
      ghost var failed;
      failed, again := other.MatchAny(query);
      SameAnswer(filter, other, query);
    }
  }

  /** Reads a filter back from its encoding. */
  method Reload<E>(filter: Filter<E>) returns (loaded: bool, other: Filter<E>)
    requires filter.Valid() && filter.encoded != [] && ReadsExactly(filter.p, Bits(filter.Codes()), filter.n)
    ensures loaded <==> !filter.Unreadable()
    ensures loaded ==> other.Valid() && !other.Unreadable() && other.Values() == filter.Values()
    ensures loaded ==> other.hash == filter.hash && other.f == filter.f
  {
    hide Bits, CompactSize.Decoded, CompactSize.Encoded, Sums, Rest;
    other := new Filter(filter.hash, filter.p, filter.m);
    CompactSize.DecodeEncoded(filter.n, filter.Codes());
    assert filter.encoded == CompactSize.Encoded(filter.n) + filter.Codes();
    loaded := other.Load(filter.encoded);
  }

  /** Some element of a list is answered with yes. */
  ghost predicate Answers<E>(filter: Filter<E>, elements: seq<E>)
    requires filter.Valid()
    reads filter
  {
    exists i, k :: 0 <= i < |filter.Values()| && 0 <= k < |elements|
                   && filter.Values()[i] == filter.InRange(elements[k]) && Highest(filter.Values(), i)
  }

  lemma BuiltFinds<E>(filter: Filter<E>, elements: seq<E>, query: seq<E>)
    requires filter.Valid() && Sorted(filter.Values())
    requires forall v :: v in filter.Values() <==> exists i :: 0 <= i < |elements| && filter.InRange(elements[i]) == v
    ensures (exists i, j :: 0 <= i < |query| && 0 <= j < |elements| && query[i] == elements[j]) ==>
      Answers(filter, query)
  {
    hide Bits, CompactSize.Encoded, Sums;
    var values := filter.Values();
    if i, j :| 0 <= i < |query| && 0 <= j < |elements| && query[i] == elements[j] {
      assert filter.InRange(elements[j]) in values;
      var k :| 0 <= k < |values| && values[k] == filter.InRange(elements[j]);
      assert Highest(values, k) && values[k] == filter.InRange(query[i]);
    }
  }

  lemma SameAnswer<E>(filter: Filter<E>, other: Filter<E>, query: seq<E>)
    requires filter.Valid() && other.Valid() && filter.Values() == other.Values()
    requires filter.hash == other.hash && filter.f == other.f
    ensures Answers(filter, query) <==> Answers(other, query)
  {
    hide Bits, CompactSize.Encoded, Sums;
    assert forall k :: 0 <= k < |query| ==> other.InRange(query[k]) == filter.InRange(query[k]);
  }

  lemma RangeFits(n: nat, m: nat)
    requires n < TWO_32 && m < TWO_32
    ensures 0 <= n * m < TWO_64
  {
    ProductBound(n, m, TWO_32 - 1, TWO_32 - 1);
  }

  /** What is left after `n` codes. */
  function Rest(p: nat, b: seq<bool>, n: nat): Option<seq<bool>> {
    if n == 0 then Some(b)
    else
      match Decode(p, b)
      case None => None
      case Some((x, rest)) => Rest(p, rest, n - 1)
  }

  lemma {:induction false} RestSums(p: nat, b: seq<bool>, n: nat, v: nat)
    ensures Rest(p, b, n).Some? <==> Sums(p, b, n, v).Some?
    decreases n
  {
    hide Decode;
    if n > 0 && Decode(p, b).Some? {
      RestSums(p, Decode(p, b).value.1, n - 1, (v + Decode(p, b).value.0) % TWO_64);
    }
  }

  lemma {:induction false} SumsSize(p: nat, b: seq<bool>, n: nat, v: nat)
    ensures Sums(p, b, n, v).Some? ==> |Sums(p, b, n, v).value| == n
    decreases n
  {
    hide Decode;
    if n > 0 && Decode(p, b).Some? {
      SumsSize(p, Decode(p, b).value.1, n - 1, (v + Decode(p, b).value.0) % TWO_64);
    }
  }

  /** When all queries are passed, no later value is one of them and highest so far. */
  lemma NoneLeft(values: seq<nat>, queries: seq<nat>, i: nat)
    requires i < |values| && Passed(values, queries, i + 1, |queries|)
    ensures !Found(values, queries)
  {
    forall m | 0 <= m < |values| && values[m] in queries ensures !Highest(values, m) {
      if m > i {
        var j :| 0 <= j < |queries| && queries[j] == values[m];
        var k :| 0 <= k < i + 1 && queries[j] < values[k];
      }
    }
  }

  /** Fewer than eight bits are left exactly when the last byte has been taken. */
  lemma LeftOver(r: BitReader)
    requires r.Valid()
    ensures |r.Remaining()| < 8 <==> r.pos == |r.bytes|
  {
  }

  lemma NoCodes(p: nat)
    ensures Sums(p, Bits([]), 0, 0) == Some([]) && ReadsExactly(p, Bits([]), 0)
  {
  }

  /** The codes end in the last byte. */
  predicate ReadsExactly(p: nat, b: seq<bool>, n: nat) {
    Rest(p, b, n).Some? && |Rest(p, b, n).value| < 8
  }

  /** An encoding is accepted when it is a size within the limit and exactly as many codes. */
  predicate Acceptable(p: nat, bytes: seq<Byte>) {
    match CompactSize.Decoded(bytes)
    case None => false
    case Some((n, codes)) => ReadsExactly(p, Bits(codes), n)
  }

  lemma {:induction false} RestOfCodes(p: nat, last: nat, s: seq<nat>, rest: seq<bool>)
    requires Ascends(last, s)
    requires forall i :: 0 <= i < |s| ==> s[i] < TWO_64
    ensures Rest(p, CodesOf(p, last, s) + rest, |s|) == Some(rest)
    decreases |s|
  {
    hide Decode, Code;
    if s == [] {
      assert [] + rest == rest;
    } else {
      CodesSplit(p, last, s, rest);
      DecodeCode(p, s[0] - last, CodesOf(p, s[0], s[1..]) + rest);
      RestOfCodes(p, s[0], s[1..], rest);
    }
  }

  const TWO_63: int := 0x8000_0000_0000_0000

  /** Two codes and some zeros, read back. */
  lemma TwoCodes(p: nat, x: nat, y: nat, k: nat)
    requires x < TWO_64 && y < TWO_64
    ensures var b := Code(p, x) + (Code(p, y) + Zeros(k));
      && Rest(p, b, 2) == Some(Zeros(k))
      && Sums(p, b, 2, 0) == Some([x, (x + y) % TWO_64])
  {
    hide Decode, Code;
    var tail := Code(p, y) + Zeros(k);
    DecodeCode(p, x, tail);
    DecodeCode(p, y, Zeros(k));
    assert Rest(p, tail, 1) == Some(Zeros(k));
    var v: nat, none: seq<nat> := (x + y) % TWO_64, [];
    assert Sums(p, Zeros(k), 0, v) == Some(none) && [v] + none == [v] && [x] + [v] == [x, v];
    assert Sums(p, tail, 1, x) == Some([v]);
  }

  /** An accepted encoding whose sums wrap around: it stands for 2^63 + 5 and 5. */
  method WrappingEncoding() returns (bytes: seq<Byte>)
    ensures Acceptable(63, bytes)
    ensures var (n, codes) := CompactSize.Decoded(bytes).value;
      n == 2 && Sums(63, Bits(codes), n, 0) == Some([TWO_63 + 5, 5])
  {
    hide Code, Decode, Bits, BitsOf, Rest, Sums, Pending, CompactSize.Decoded, CompactSize.Encoded;
    var w := new BitWriter();
    GolombRiceEncode(w, 63, TWO_63 + 5);
    GolombRiceEncode(w, 63, TWO_63);
    ghost var k := if w.offset == 0 then 0 else 8 - w.offset;
    w.Flush();
    Joined(Code(63, TWO_63 + 5), Code(63, TWO_63), Zeros(k));
    TwoCodes(63, TWO_63 + 5, TWO_63, k);
    bytes := CompactSize.Encoded(2) + w.bytes;
    CompactSize.DecodeEncoded(2, w.bytes);
  }

  lemma Joined(a: seq<bool>, b: seq<bool>, c: seq<bool>)
    ensures [] + a + b + c == a + (b + c)
  {
  }

  lemma SecondIsMissed(values: seq<nat>)
    requires values == [TWO_63 + 5, 5]
    ensures 5 in values && forall i :: 0 <= i < |values| && values[i] == 5 ==> !Highest(values, i)
  {
    assert values[1] == 5 && values[0] > values[1];
  }

  /** A filter that is accepted, and an element whose hash stands for one of its values and is not found. */
  method FalseNegative() returns (filter: Filter<nat>, e: nat, threw: bool, r: bool)
    ensures filter.Valid() && filter.InRange(e) in filter.Values()
    ensures !threw && !r
  {
    hide Decode, Bits, Rest, Sums, Highest, CompactSize.Decoded, CompactSize.Encoded;
    var bytes := WrappingEncoding();
    filter := new Filter(x => x, 63, 0x8000_0000);
    var ok := filter.Load(bytes);
    e := 5 * TWO_32;
    assert filter.InRange(e) == 5;
    SecondIsMissed(filter.Values());
    threw, r := filter.Match(e);
  }
}
