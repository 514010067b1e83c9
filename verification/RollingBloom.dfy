/**
 * The rolling Bloom filter: every cell of the filter holds the generation that
 * last set it, in two bits kept in separate 64-bit words; generations are
 * reused, and starting one wipes the cells of the oldest.
 */
module RollingBloom {
  import Arithmetic
  import FastRange

  // 64-bit words as their bits, and the bitwise operations on them.

  type Word = w: seq<bool> | |w| == 64 witness seq(64, _ => false)

  function And(x: Word, y: Word): Word { seq(64, i requires 0 <= i < 64 => x[i] && y[i]) }

  function Or(x: Word, y: Word): Word { seq(64, i requires 0 <= i < 64 => x[i] || y[i]) }

  function Xor(x: Word, y: Word): Word { seq(64, i requires 0 <= i < 64 => x[i] != y[i]) }

  function Not(x: Word): Word { seq(64, i requires 0 <= i < 64 => !x[i]) }

  /** `v << b` for a bit `v`. */
  function Shifted(v: bool, b: nat): Word { seq(64, i => v && i == b) }

  /** `0 - v` for a bit `v`. */
  function Mask(v: bool): Word { seq(64, _ => v) }

  /** Writing bit `v` at position `b` of a word. */
  function WithBit(x: Word, b: nat, v: bool): (r: Word)
    ensures forall i :: 0 <= i < 64 ==> r[i] == if i == b then v else x[i]
  {
    Or(And(x, Not(Shifted(true, b))), Shifted(v, b))
  }

  /** The mask that keeps every position of two words but those that hold the bits `v1` and `v2`. */
  function Others(p1: Word, p2: Word, v1: bool, v2: bool): (r: Word)
    ensures forall i :: 0 <= i < 64 ==> r[i] == !(p1[i] == v1 && p2[i] == v2)
  {
    Or(Xor(p1, Mask(v1)), Xor(p2, Mask(v2)))
  }

  // Cells.

  datatype Cell = Cell(word: nat, bit: nat)

  predicate IsCell(d: seq<Word>, c: Cell) {
    2 * c.word + 1 < |d| && c.bit < 64
  }

  /** The low bit of a generation number. */
  predicate Bit1(g: int) { g % 2 == 1 }

  /** The high bit of a generation number. */
  predicate Bit2(g: int) { g / 2 == 1 }

  /** The generation that a cell holds, or 0. */
  function Held(d: seq<Word>, c: Cell): (g: int)
    requires IsCell(d, c)
    ensures 0 <= g <= 3 && Bit1(g) == d[2 * c.word][c.bit] && Bit2(g) == d[2 * c.word + 1][c.bit]
  {
    (if d[2 * c.word][c.bit] then 1 else 0) + (if d[2 * c.word + 1][c.bit] then 2 else 0)
  }

  /** A cell is overwritten with generation `g`. */
  function Marked(d: seq<Word>, c: Cell, g: int): (e: seq<Word>)
    requires IsCell(d, c)
    ensures |e| == |d|
  {
    var i := 2 * c.word;
    d[i := WithBit(d[i], c.bit, Bit1(g))][i + 1 := WithBit(d[i + 1], c.bit, Bit2(g))]
  }

  lemma MarkedHeld(d: seq<Word>, c: Cell, g: int, x: Cell)
    requires IsCell(d, c) && IsCell(d, x) && 1 <= g <= 3
    ensures Held(Marked(d, c, g), x) == if x == c then g else Held(d, x)
  {
    hide WithBit;
  }

  /** Cells that hold generation `g` are emptied, the others stay. */
  ghost predicate Wiped(d: seq<Word>, g: int, e: seq<Word>) {
    |e| == |d| && forall c :: IsCell(d, c) ==> Held(e, c) == if Held(d, c) == g then 0 else Held(d, c)
  }

  class RollingFilter<K> {
    /** The keyed hash: tweak, function number, key. */
    const hash: (nat, int, K) -> nat
    const functions: nat
    const perGeneration: nat
    const data: array<Word>
    var tweak: nat
    var thisGeneration: int
    var generation: int

    /** The keys since the last reset, where the last three generations start, and how many began. */
    ghost var keys: seq<K>
    ghost var start: seq<int>
    ghost var epoch: nat

    ghost predicate Shape() {
      data.Length >= 2 && data.Length % 2 == 0
    }

    /** The cell of a key for one hash function. */
    function CellOf(key: K, n: int): (c: Cell)
      requires Shape()
      reads this`tweak
      ensures 2 * c.word + 1 < data.Length && c.bit < 64
    {
      var h := hash(tweak, n, key) % Arithmetic.TWO_32;
      Cell(FastRange.Scaled(h, data.Length) / 2, h % 64)
    }

    function CellsOf(key: K): set<Cell>
      requires Shape()
      reads this`tweak
    {
      set n | 0 <= n < functions :: CellOf(key, n)
    }

    /** The cells of each key. */
    ghost function Cells(): (cs: seq<set<Cell>>)
      requires Shape()
      reads this
      ensures |cs| == |keys| && forall i :: 0 <= i < |cs| ==> cs[i] == CellsOf(keys[i])
    {
      seq(|keys|, i requires 0 <= i < |keys| reads this => CellsOf(keys[i]))
    }

    /** Every cell holds the generation of the last key that has it, among those of the last three generations. */
    ghost predicate Valid()
      reads this, data
    {
      && Shape()
      && generation == Gen(epoch)
      && Starts(start, |keys|, thisGeneration, perGeneration)
      && forall c :: IsCell(data[..], c) ==> Exact(data[..], Cells(), start, epoch, c)
    }

    constructor (hash: (nat, int, K) -> nat, functions: nat, elements: nat, words: nat, tweak: nat)
      requires words > 0
      ensures Valid() && keys == [] && perGeneration == (elements + 1) / 2 && data.Length == 2 * words
      ensures this.hash == hash && this.functions == functions && this.tweak == tweak
      ensures fresh(data)
    {
      this.hash := hash;
      this.functions := functions;
      perGeneration := (elements + 1) / 2;
      data := new Word[2 * words](i => Mask(false));
      this.tweak := tweak;
      thisGeneration, generation := 0, 1;
      keys, start, epoch := [], [0, 0, 0], 0;
      new;
      assert Cells() == [];
    }

    method Reset(newTweak: nat)
      requires Valid()
      modifies this, data
      ensures Valid() && keys == [] && tweak == newTweak
      ensures forall c :: IsCell(data[..], c) ==> Held(data[..], c) == 0
    {
      tweak := newTweak;
      thisGeneration, generation := 0, 1;
      for i := 0 to data.Length
        modifies data
        invariant forall j :: 0 <= j < i ==> data[j] == Mask(false)
      {
        data[i] := Mask(false);
      }
      keys, start, epoch := [], [0, 0, 0], 0;
      assert Cells() == [];
    }

    /** Empties the cells of the generation that is started. */
    method Wipe()
      requires Shape() && 1 <= generation <= 3
      modifies data
      ensures Wiped(old(data[..]), generation, data[..])
    {
      hide Others;
      ghost var d := data[..];
      var p := 0;
      while p < data.Length
        invariant 0 <= p <= data.Length && p % 2 == 0
        invariant forall c :: IsCell(d, c) && 2 * c.word < p ==>
          Held(data[..], c) == if Held(d, c) == generation then 0 else Held(d, c)
        invariant forall i :: p <= i < data.Length ==> data[i] == d[i]
      {
        var p1, p2 := data[p], data[p + 1];
        var mask := Others(p1, p2, Bit1(generation), Bit2(generation));
        ghost var before := data[..];
        data[p] := And(p1, mask);
        data[p + 1] := And(p2, mask);
        WipePair(before, data[..], d, p, generation);
        p := p + 2;
      }
    }

    /** Starts the next generation once the current one is full. */
    method Roll()
      requires Valid() && thisGeneration == perGeneration
      modifies this`thisGeneration, this`generation, this`start, this`epoch, data
      ensures Valid() && thisGeneration == 0
    {
      hide Held, CellsOf, Gen, Exact, Wiped;
      ghost var d, cs := data[..], Cells();
      thisGeneration := 0;
      generation := generation + 1;
      if generation == 4 {
        generation := 1;
      }
      NextGen(epoch);
      Wipe();
      forall c | IsCell(data[..], c) ensures Exact(data[..], cs, [start[1], start[2], |keys|], epoch + 1, c) {
        SameShape(d, data[..], c);
        ExactRoll(d, data[..], cs, start, epoch, c);
      }
      start, epoch := [start[1], start[2], |keys|], epoch + 1;
      assert Cells() == cs;
    }

    /** Writes the current generation into the cells of a key, and nothing else. */
    method Mark(key: K)
      requires Shape() && generation == Gen(epoch)
      modifies data
      ensures forall c :: IsCell(old(data[..]), c) ==>
        Held(data[..], c) == if c in CellsOf(key) then generation else Held(old(data[..]), c)
    {
      hide Held, Marked, CellOf, WithBit, Gen, Bit1, Bit2;
      ghost var d := data[..];
      NextGen(epoch);
      for n := 0 to functions
        invariant forall c :: IsCell(d, c) ==>
          Held(data[..], c) == if IsAmong(key, n, c) then generation else Held(d, c)
      {
        ghost var before := data[..];
        var c := CellOf(key, n);
        var i := 2 * c.word;
        data[i] := WithBit(data[i], c.bit, Bit1(generation));
        data[i + 1] := WithBit(data[i + 1], c.bit, Bit2(generation));
        MarkPair(before, data[..], c, generation);
        forall x | IsCell(d, x)
          ensures Held(data[..], x) == if IsAmong(key, n + 1, x) then generation else Held(d, x)
        {
          SameShape(d, before, x);
          MarkedHeld(before, c, generation, x);
        }
      }
    }

    /** A cell is one of the first `n` of a key. */
    ghost predicate IsAmong(key: K, n: int, c: Cell)
      requires Shape()
      reads this`tweak
    {
      exists j :: 0 <= j < n && CellOf(key, j) == c
    }

    method Insert(key: K)
      requires Valid()
      modifies this, data
      ensures Valid() && keys == old(keys) + [key] && tweak == old(tweak)
      ensures thisGeneration == (if old(thisGeneration) == perGeneration then 0 else old(thisGeneration)) + 1
    {
      hide Held, CellsOf, Gen, Exact;
      if thisGeneration == perGeneration {
        Roll();
      }
      ghost var d, cs := data[..], Cells();
      thisGeneration := thisGeneration + 1;
      Mark(key);
      forall c | IsCell(data[..], c) ensures Exact(data[..], cs + [CellsOf(key)], start, epoch, c) {
        SameShape(d, data[..], c);
        ExactMark(d, data[..], cs, CellsOf(key), start, epoch, c);
      }
      keys := keys + [key];
      assert Cells() == cs + [CellsOf(key)];
    }

    /** Whether a key is among those of the last two full generations and the current one. */
    ghost predicate Recent(key: K)
      reads this
    {
      exists i :: 0 <= i < |keys| && keys[i] == key && |keys| - (2 * perGeneration + thisGeneration) <= i
    }

    /** A cell is one of some key of the last three generations. */
    ghost predicate InUse(c: Cell)
      requires Shape() && |start| == 3 && start[0] >= 0
      reads this
    {
      exists i :: start[0] <= i < |keys| && c in CellsOf(keys[i])
    }

    /** Every cell of the key is also a cell of some key of the last three generations. */
    ghost predicate Covered(key: K)
      requires Shape() && |start| == 3 && start[0] >= 0
      reads this
    {
      forall n :: 0 <= n < functions ==> InUse(CellOf(key, n))
    }

    lemma HeldIff(c: Cell)
      requires Valid() && IsCell(data[..], c)
      ensures Held(data[..], c) != 0 <==> InUse(c)
    {
      hide Held, CellsOf;
      assert Exact(data[..], Cells(), start, epoch, c);
      NextGen(epoch);
      LatestIs(Cells(), start[0], c);
    }

    lemma RecentIsHeld(key: K)
      requires Valid()
      ensures Recent(key) ==> Covered(key)
    {
      if Recent(key) {
        var i :| 0 <= i < |keys| && keys[i] == key && |keys| - (2 * perGeneration + thisGeneration) <= i;
        forall n | 0 <= n < functions ensures InUse(CellOf(key, n)) {
          assert CellOf(key, n) in CellsOf(keys[i]);
        }
      }
    }

    /** A filter made for a number of elements always covers that many of the latest keys. */
    lemma CoversElements(elements: nat, i: nat)
      requires Valid() && perGeneration == (elements + 1) / 2 && i < |keys| && |keys| - elements <= i
      ensures Recent(keys[i])
    {
      hide Exact, Held;
      assert |keys| - (2 * perGeneration + thisGeneration) <= i;
    }

    /**
     * A key is reported exactly when all its cells are cells of keys of the last three generations, so
     * that those of the last two full ones and of the current one always are.
     */
    method Contains(key: K) returns (found: bool)
      requires Valid()
      ensures found <==> Covered(key)
      ensures Recent(key) ==> found
    {
      hide Exact, CellsOf, InUse;
      RecentIsHeld(key);
      found := true;
      for n := 0 to functions
        invariant forall j :: 0 <= j < n ==> InUse(CellOf(key, j))
      {
        var c := CellOf(key, n);
        HeldIff(c);
        if !Or(data[2 * c.word], data[2 * c.word + 1])[c.bit] {
          assert Held(data[..], c) == 0;
          return false;
        }
        assert Held(data[..], c) != 0;
      }
    }
  }

  /** Whatever keys were inserted since the start, the last `elements` of them are found. */
  method InsertAll<K>(hash: (nat, int, K) -> nat, functions: nat, elements: nat, words: nat, tweak: nat, keys: seq<K>)
    returns (filter: RollingFilter<K>, found: seq<bool>)
    requires words > 0
    ensures filter.Valid() && filter.keys == keys && filter.hash == hash && filter.tweak == tweak
    ensures |found| == |keys| && forall i :: 0 <= i < |keys| && |keys| - elements <= i ==> found[i]
    ensures forall i :: 0 <= i < |keys| ==> (found[i] <==> filter.Covered(keys[i]))
  {
    hide Exact, Held;
    filter := new RollingFilter(hash, functions, elements, words, tweak);
    for i := 0 to |keys|
      invariant filter.Valid() && filter.keys == keys[..i] && fresh(filter) && fresh(filter.data)
      invariant filter.perGeneration == (elements + 1) / 2 && filter.tweak == tweak
    {
      filter.Insert(keys[i]);
    }
    assert keys[..|keys|] == keys;
    found := [];
    for i := 0 to |keys|
      invariant |found| == i && filter.Valid() && filter.keys == keys && filter.tweak == tweak
      invariant filter.perGeneration == (elements + 1) / 2
      invariant forall j :: 0 <= j < i && |keys| - elements <= j ==> found[j]
      invariant forall j :: 0 <= j < i ==> (found[j] <==> filter.Covered(keys[j]))
    {
      var f := filter.Contains(keys[i]);
      if |keys| - elements <= i {
        filter.CoversElements(elements, i);
      }
      found := found + [f];
    }
  }

  lemma MarkPair(before: seq<Word>, after: seq<Word>, c: Cell, g: int)
    requires IsCell(before, c)
    requires var i := 2 * c.word;
      && |after| == |before| && after[i] == WithBit(before[i], c.bit, Bit1(g))
      && after[i + 1] == WithBit(before[i + 1], c.bit, Bit2(g))
      && forall j :: 0 <= j < |before| && j != i && j != i + 1 ==> after[j] == before[j]
    ensures after == Marked(before, c, g)
  {
    hide WithBit;
  }

  lemma SameShape(d: seq<Word>, e: seq<Word>, c: Cell)
    requires |d| == |e|
    ensures IsCell(d, c) <==> IsCell(e, c)
  {
  }

  lemma NextGen(x: nat)
    ensures 1 <= Gen(x) <= 3 && Gen(x + 1) == if Gen(x) == 3 then 1 else Gen(x) + 1
  {
    var q, r := x / 3, x % 3;
    assert x == 3 * q + r && x + 1 == if r == 2 then 3 * (q + 1) else 3 * q + (r + 1);
  }

  /** The last of some lists, from number `from` on, that has a cell, or -1. */
  ghost function Latest(cs: seq<set<Cell>>, from: int, c: Cell): (i: int)
    ensures -1 <= i < |cs| && (i >= 0 ==> i >= from && c in cs[i])
  {
    var n := |cs| - 1;
    if n < 0 || n < from then -1 else if c in cs[n] then n else Latest(cs[..n], from, c)
  }

  lemma {:induction false} LatestIs(cs: seq<set<Cell>>, from: nat, c: Cell)
    ensures Latest(cs, from, c) >= 0 <==> exists i :: from <= i < |cs| && c in cs[i]
  {
    var n := |cs| - 1;
    if n >= from && c !in cs[n] {
      LatestIs(cs[..n], from, c);
      if i :| from <= i < |cs| && c in cs[i] {
        assert c in cs[..n][i];
      }
    }
  }

  lemma {:induction false} LatestLater(cs: seq<set<Cell>>, from: nat, to: nat, c: Cell)
    requires from <= to
    ensures Latest(cs, to, c) == if Latest(cs, from, c) >= to then Latest(cs, from, c) else -1
  {
    var n := |cs| - 1;
    if n >= to && c !in cs[n] {
      LatestLater(cs[..n], from, to, c);
    }
  }

  lemma LatestNext(cs: seq<set<Cell>>, more: set<Cell>, from: nat, c: Cell)
    requires from <= |cs|
    ensures Latest(cs + [more], from, c) == if c in more then |cs| else Latest(cs, from, c)
  {
    assert (cs + [more])[..|cs|] == cs;
  }

  /** A cell holds the generation of the last key that has it, or 0 if no key of the last three generations has. */
  ghost predicate Exact(d: seq<Word>, cs: seq<set<Cell>>, start: seq<int>, epoch: int, c: Cell)
    requires |start| == 3 && IsCell(d, c)
  {
    var i := Latest(cs, start[0], c);
    Held(d, c) == if i < 0 then 0 else Gen(EpochOf(start, epoch, i))
  }

  /** Starting a generation empties just the cells that no key of the last two generations has. */
  lemma ExactRoll(d: seq<Word>, e: seq<Word>, cs: seq<set<Cell>>, start: seq<int>, epoch: int, c: Cell)
    requires |start| == 3 && 0 <= start[0] <= start[1] <= start[2] <= |cs| && IsCell(d, c) && IsCell(e, c) && epoch >= 0
    requires Exact(d, cs, start, epoch, c) && Wiped(d, Gen(epoch + 1), e)
    ensures Exact(e, cs, [start[1], start[2], |cs|], epoch + 1, c)
  {
    hide Held, Latest;
    LatestLater(cs, start[0], start[1], c);
    GensDiffer(epoch);
  }

  lemma GensDiffer(epoch: int)
    ensures Gen(epoch - 2) == Gen(epoch + 1) != Gen(epoch) && Gen(epoch - 1) != Gen(epoch + 1) && Gen(epoch + 1) != 0
    ensures Gen(epoch) != 0 && Gen(epoch - 1) != 0
  {
    var q, r := epoch / 3, epoch % 3;
    assert epoch == 3 * q + r;
    assert epoch + 1 == if r == 2 then 3 * (q + 1) else 3 * q + (r + 1);
    assert epoch - 1 == if r == 0 then 3 * (q - 1) + 2 else 3 * q + (r - 1);
    assert epoch - 2 == if r == 2 then 3 * q else 3 * (q - 1) + (r + 1);
  }

  /** A new key takes over its cells, and leaves the others. */
  lemma ExactMark(d: seq<Word>, e: seq<Word>, cs: seq<set<Cell>>, cells: set<Cell>, start: seq<int>, epoch: int,
                  c: Cell)
    requires |start| == 3 && 0 <= start[0] <= start[2] <= |cs| && IsCell(d, c) && IsCell(e, c)
    requires Exact(d, cs, start, epoch, c) && Held(e, c) == if c in cells then Gen(epoch) else Held(d, c)
    ensures Exact(e, cs + [cells], start, epoch, c)
  {
    hide Held, Latest;
    LatestNext(cs, cells, start[0], c);
  }

  lemma WipePair(before: seq<Word>, after: seq<Word>, d: seq<Word>, p: nat, g: int)
    requires |before| == |d| && p + 1 < |d| && p % 2 == 0 && 1 <= g <= 3
    requires before[p] == d[p] && before[p + 1] == d[p + 1]
    requires var mask := Others(before[p], before[p + 1], Bit1(g), Bit2(g));
      after == before[p := And(before[p], mask)][p + 1 := And(before[p + 1], mask)]
    ensures forall c :: IsCell(d, c) && 2 * c.word == p ==> Held(after, c) == if Held(d, c) == g then 0 else Held(d, c)
    ensures forall c :: IsCell(d, c) && 2 * c.word != p ==> Held(after, c) == Held(before, c)
  {
    hide Others;
  }

  /** The number that generation `x` goes by. */
  function Gen(x: int): int { 1 + x % 3 }

  ghost predicate Starts(start: seq<int>, total: int, thisGeneration: int, perGeneration: nat) {
    && |start| == 3 && 0 <= start[0] <= start[1] <= start[2] <= total
    && thisGeneration == total - start[2]
    && (start[1] == 0 || start[2] - start[1] == perGeneration)
    && (start[0] == 0 || start[1] - start[0] == perGeneration)
  }

  /** The generation in which key `i` was inserted, if it is one of the last three. */
  ghost function EpochOf(start: seq<int>, epoch: int, i: int): int
    requires |start| == 3
  {
    if i >= start[2] then epoch else if i >= start[1] then epoch - 1 else epoch - 2
  }
}
