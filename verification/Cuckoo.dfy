/**
 * The cuckoo cache: a hash set with eight candidate slots per element,
 * displacement chains of bounded length, lazy erasure through bit-packed
 * flags, and two epochs of age.
 */
module Cuckoo {
  import opened Arithmetic
  import opened ByteBits
  import opened Common
  import FastRange

  const HASHES: int := 8

  /** Contents of the cache: elements, whether a slot is in use, whether its element is recent. */
  datatype View<E> = View(table: seq<E>, live: seq<bool>, recent: seq<bool>)

  predicate Shaped<E>(v: View<E>) {
    |v.live| == |v.table| && |v.recent| == |v.table|
  }

  /** The elements that are not erased. */
  function Live<E>(v: View<E>): set<E>
    requires Shaped(v)
  {
    set i | 0 <= i < |v.table| && v.live[i] :: v.table[i]
  }

  /** The slots of the current epoch that are not erased. */
  function Current<E>(v: View<E>): set<int>
    requires Shaped(v)
  {
    set i | 0 <= i < |v.table| && v.live[i] && v.recent[i]
  }

  /** The elements of the current epoch that are not erased. */
  function Young<E>(v: View<E>): set<E>
    requires Shaped(v)
  {
    set i | 0 <= i < |v.table| && v.live[i] && v.recent[i] :: v.table[i]
  }

  /** Slot `i` filled. */
  function Put<E>(v: View<E>, i: int, e: E, recent: bool): View<E>
    requires Shaped(v) && 0 <= i < |v.table|
  {
    View(v.table[i := e], v.live[i := true], v.recent[i := recent])
  }

  lemma PutFree<E>(v: View<E>, i: int, e: E, recent: bool)
    requires Shaped(v) && 0 <= i < |v.table| && !v.live[i]
    ensures Live(Put(v, i, e, recent)) == Live(v) + {e}
    ensures |Current(Put(v, i, e, recent))| == |Current(v)| + (if recent then 1 else 0)
  {
    var w := Put(v, i, e, recent);
    assert w.table[i] in Live(w);
    forall x | x in Live(v) ensures x in Live(w) {
      var j :| 0 <= j < |v.table| && v.live[j] && v.table[j] == x;
      assert w.live[j] && w.table[j] == x;
    }
    assert Current(w) == if recent then Current(v) + {i} else Current(v);
  }

  /** Exchanging the element in hand with that of a live slot loses nothing. */
  lemma PutSwap<E>(v: View<E>, i: int, e: E, recent: bool)
    requires Shaped(v) && 0 <= i < |v.table| && v.live[i]
    ensures Live(Put(v, i, e, recent)) + {v.table[i]} == Live(v) + {e}
    ensures |Current(Put(v, i, e, recent))| + (if v.recent[i] then 1 else 0) == |Current(v)| + (if recent then 1 else 0)
  {
    var w := Put(v, i, e, recent);
    assert w.table[i] in Live(w) && v.table[i] in Live(v);
    forall x | x in Live(v) ensures x in Live(w) + {v.table[i]} {
      var j :| 0 <= j < |v.table| && v.live[j] && v.table[j] == x;
      assert j != i ==> w.live[j] && w.table[j] == x;
    }
    forall x | x in Live(w) ensures x in Live(v) + {e} {
      var j :| 0 <= j < |w.table| && w.live[j] && w.table[j] == x;
      assert j != i ==> v.live[j] && v.table[j] == x;
    }
    var rest := Current(v) - {i};
    assert Current(v) == if v.recent[i] then rest + {i} else rest;
    assert Current(w) == if recent then rest + {i} else rest;
  }

  /** What a filled slot changes about the current epoch. */
  lemma PutYoung<E>(v: View<E>, i: int, e: E, recent: bool)
    requires Shaped(v) && 0 <= i < |v.table|
    ensures Young(Put(v, i, e, recent)) + (if v.live[i] && v.recent[i] then {v.table[i]} else {}) ==
      Young(v) + (if recent then {e} else {})
    ensures recent ==> e in Young(Put(v, i, e, recent))
  {
    var w := Put(v, i, e, recent);
    var gone, more := if v.live[i] && v.recent[i] then {v.table[i]} else {}, if recent then {e} else {};
    forall x | x in Young(w) ensures x in Young(v) + more {
      var j :| 0 <= j < |w.table| && w.live[j] && w.recent[j] && w.table[j] == x;
      assert j != i ==> v.live[j] && v.recent[j] && v.table[j] == x;
    }
    forall x | x in Young(v) ensures x in Young(w) + gone {
      var j :| 0 <= j < |v.table| && v.live[j] && v.recent[j] && v.table[j] == x;
      assert j != i ==> w.live[j] && w.recent[j] && w.table[j] == x;
    }
    assert recent ==> w.live[i] && w.recent[i] && w.table[i] == e;
  }

  /** Keeping a slot whose element is already `e`. */
  lemma PutSame<E>(v: View<E>, i: int, e: E)
    requires Shaped(v) && 0 <= i < |v.table| && v.table[i] == e
    ensures Live(Put(v, i, e, true)) == Live(v) + {e}
    ensures |Current(v)| <= |Current(Put(v, i, e, true))| <= |Current(v)| + 1
  {
    if v.live[i] {
      PutSwap(v, i, e, true);
      assert e in Live(v);
      var w := Put(v, i, e, true);
      assert w.table[i] in Live(w);
    } else {
      PutFree(v, i, e, true);
    }
  }

  /** The `k`-th candidate slot of an element: a 32-bit hash scaled to the table. */
  function Loc<E>(hash: (int, E) -> nat, size: nat, e: E, k: int): (i: int)
    requires size > 0
    ensures 0 <= i < size
  {
    FastRange.Scaled(hash(k, e) % TWO_32, size)
  }

  predicate IsLoc<E>(hash: (int, E) -> nat, size: nat, e: E, i: int)
    requires size > 0
  {
    exists k :: 0 <= k < HASHES && Loc(hash, size, e, k) == i
  }

  /** An element of the table that is not the blank filler, or is in use. */
  predicate Stored<E(==)>(blank: E, v: View<E>, i: int)
    requires Shaped(v) && 0 <= i < |v.table|
  {
    v.live[i] || v.table[i] != blank
  }

  /** All candidate slots of an element are in use. */
  ghost predicate Crowded<E>(hash: (int, E) -> nat, v: View<E>, e: E)
    requires Shaped(v) && |v.table| > 0
  {
    forall k :: 0 <= k < HASHES ==> v.live[Loc(hash, |v.table|, e, k)]
  }

  lemma AllInUse<E>(hash: (int, E) -> nat, v: View<E>, e: E)
    requires Shaped(v) && |v.table| > 0 && forall k :: 0 <= k < HASHES ==> v.live[Loc(hash, |v.table|, e, k)]
    ensures Crowded(hash, v, e)
  {
  }

  /** Every stored element sits in one of its candidate slots, and none but the blank is there twice. */
  ghost predicate Located<E>(hash: (int, E) -> nat, blank: E, v: View<E>) {
    && Shaped(v)
    && (forall i :: 0 <= i < |v.table| && Stored(blank, v, i) ==> IsLoc(hash, |v.table|, v.table[i], i))
    && (forall i, j :: 0 <= i < j < |v.table| && v.table[i] == v.table[j] ==> v.table[i] == blank)
  }

  /** The element in hand is nowhere in the table. */
  predicate InHand<E(==)>(blank: E, v: View<E>, e: E) {
    e == blank || e !in v.table
  }

  /** Placing the element in hand keeps the table in order, and what it displaces is then in hand. */
  lemma PutLocated<E>(hash: (int, E) -> nat, blank: E, v: View<E>, i: int, e: E, recent: bool)
    requires Located(hash, blank, v) && InHand(blank, v, e)
    requires 0 <= i < |v.table| && IsLoc(hash, |v.table|, e, i)
    ensures Located(hash, blank, Put(v, i, e, recent))
    ensures InHand(blank, Put(v, i, e, recent), v.table[i])
  {
    hide IsLoc;
  }

  lemma KeepLocated<E>(hash: (int, E) -> nat, blank: E, v: View<E>, i: int, e: E)
    requires Located(hash, blank, v)
    requires 0 <= i < |v.table| && v.table[i] == e && IsLoc(hash, |v.table|, e, i)
    ensures Located(hash, blank, Put(v, i, e, true))
  {
    hide IsLoc;
  }

  /** Erasing a slot removes its element from the contents, and only that. */
  lemma Erase<E>(hash: (int, E) -> nat, blank: E, v: View<E>, i: int)
    requires Located(hash, blank, v) && 0 <= i < |v.table|
    ensures Located(hash, blank, v.(live := v.live[i := false]))
    ensures Live(v) - {v.table[i]} <= Live(v.(live := v.live[i := false])) <= Live(v)
    ensures v.table[i] != blank ==> v.table[i] !in Live(v.(live := v.live[i := false]))
    ensures |Current(v.(live := v.live[i := false]))| <= |Current(v)|
    ensures Young(v) - {v.table[i]} <= Young(v.(live := v.live[i := false]))
  {
    hide IsLoc;
    var w := v.(live := v.live[i := false]);
    forall x | x in Young(v) && x != v.table[i] ensures x in Young(w) {
      var j :| 0 <= j < |v.table| && v.live[j] && v.recent[j] && v.table[j] == x;
      assert w.live[j] && w.recent[j] && w.table[j] == x;
    }
    forall x | x in Live(v) && x != v.table[i] ensures x in Live(w) {
      var j :| 0 <= j < |v.table| && v.live[j] && v.table[j] == x;
      assert w.live[j] && w.table[j] == x;
    }
    assert Current(w) == Current(v) - {i};
  }

  /** An element that is not erased is at one of its candidate slots. */
  lemma LiveIsFound<E>(hash: (int, E) -> nat, blank: E, v: View<E>, e: E)
    requires Located(hash, blank, v) && e in Live(v)
    ensures exists k :: 0 <= k < HASHES && v.table[Loc(hash, |v.table|, e, k)] == e
  {
    var i :| 0 <= i < |v.table| && v.live[i] && v.table[i] == e;
    assert Stored(blank, v, i);
  }

  /** Any occurrence of an element other than the blank is at one of its candidate slots. */
  lemma AbsentFromSlots<E>(hash: (int, E) -> nat, blank: E, v: View<E>, e: E)
    requires Located(hash, blank, v) && |v.table| > 0
    requires forall k :: 0 <= k < HASHES ==> v.table[Loc(hash, |v.table|, e, k)] != e
    ensures InHand(blank, v, e)
  {
    forall i | 0 <= i < |v.table| && v.table[i] == e ensures e == blank {
      assert Stored(blank, v, i) || e == blank;
    }
  }

  // The chain of displacements.

  /** What is in hand, with its epoch, the contents then, and the slot that it was taken from. */
  datatype Hand<E> = Hand(view: View<E>, e: E, recent: bool, last: int)

  /** The candidate after the last one that was used, or the second if that is none of the candidates. */
  function NextLoc<E>(hash: (int, E) -> nat, size: nat, e: E, last: int): (i: int)
    requires size > 0
    ensures 0 <= i < size
  {
    Loc(hash, size, e, (1 + FirstIndex(hash, size, e, last, 0)) % HASHES)
  }

  /** The first candidate from number `k` on that is slot `last`, or 8. */
  function FirstIndex<E>(hash: (int, E) -> nat, size: nat, e: E, last: int, k: nat): (j: nat)
    requires size > 0 && k <= HASHES
    ensures k <= j <= HASHES && (j < HASHES ==> Loc(hash, size, e, j) == last)
    ensures forall i :: k <= i < j ==> Loc(hash, size, e, i) != last
    decreases HASHES - k
  {
    if k == HASHES || Loc(hash, size, e, k) == last then k else FirstIndex(hash, size, e, last, k + 1)
  }

  /** An element whose candidates are all different is never put back into the slot that it was just taken from. */
  lemma NotBack<E>(hash: (int, E) -> nat, size: nat, e: E, last: int)
    requires size > 0
    requires forall i, j :: 0 <= i < j < HASHES ==> Loc(hash, size, e, i) != Loc(hash, size, e, j)
    ensures NextLoc(hash, size, e, last) != last
  {
    hide Loc;
    var j := FirstIndex(hash, size, e, last, 0);
    if j == HASHES {
      assert Loc(hash, size, e, 1) != last;
    } else if j == HASHES - 1 {
      assert Loc(hash, size, e, 0) != Loc(hash, size, e, j);
    } else {
      assert Loc(hash, size, e, j) != Loc(hash, size, e, j + 1);
    }
  }

  /** One displacement: nothing is free for the element in hand, and it changes places with another. */
  ghost predicate Moved<E>(hash: (int, E) -> nat, a: Hand<E>, b: Hand<E>) {
    && Shaped(a.view) && |a.view.table| > 0 && Crowded(hash, a.view, a.e)
    && b.last == NextLoc(hash, |a.view.table|, a.e, a.last)
    && b.view == Put(a.view, b.last, a.e, a.recent)
    && b.e == a.view.table[b.last] && b.recent == a.view.recent[b.last]
  }

  ghost predicate Chain<E>(hash: (int, E) -> nat, v: View<E>, e: E, hands: seq<Hand<E>>) {
    && hands != [] && hands[0] == Hand(v, e, true, -1)
    && forall i :: 0 < i < |hands| ==> Moved(hash, hands[i - 1], hands[i])
  }

  /** The first candidate of an element that is free. */
  ghost predicate FirstFree<E>(hash: (int, E) -> nat, v: View<E>, e: E, i: int)
    requires Shaped(v) && |v.table| > 0
  {
    exists k :: 0 <= k < HASHES && i == Loc(hash, |v.table|, e, k) && !v.live[i]
      && forall j :: 0 <= j < k ==> v.live[Loc(hash, |v.table|, e, j)]
  }

  /**
   * How a new element is settled: after fewer than `depth` displacements the element in hand finds a free
   * slot, or after `depth` of them it is dropped.
   */
  ghost predicate Settled<E>(hash: (int, E) -> nat, depth: nat, v: View<E>, e: E, hands: seq<Hand<E>>, w: View<E>,
                             dropped: set<E>)
  {
    && Chain(hash, v, e, hands) && |hands| <= depth + 1
    && var h := hands[|hands| - 1];
       if |hands| <= depth then
         && dropped == {} && Shaped(h.view) && |h.view.table| > 0
         && exists i :: 0 <= i < |h.view.table| && FirstFree(hash, h.view, h.e, i) && w == Put(h.view, i, h.e, h.recent)
       else dropped == {h.e} && w == h.view
  }

  lemma ChainNext<E>(hash: (int, E) -> nat, v: View<E>, e: E, hands: seq<Hand<E>>, h: Hand<E>)
    requires Chain(hash, v, e, hands) && Moved(hash, hands[|hands| - 1], h)
    ensures Chain(hash, v, e, hands + [h])
  {
    hide Moved;
    var more := hands + [h];
    forall i | 0 < i < |more| ensures Moved(hash, more[i - 1], more[i]) {
      assert i < |hands| ==> more[i] == hands[i];
      assert more[i - 1] == hands[i - 1];
    }
  }

  /** Between two moves: `e` came to the contents `v`, and `hand` is what is still to be placed. */
  ghost predicate Carried<E>(hash: (int, E) -> nat, blank: E, v: View<E>, e: E, w: View<E>, hand: E, recent: bool) {
    && Shaped(v) && Shaped(w) && |w.table| == |v.table| > 0 && Located(hash, blank, w) && InHand(blank, w, hand)
    && Live(w) + {hand} == Live(v) + {e}
    && Young(w) + (if recent then {hand} else {}) == Young(v) + {e}
    && |Current(w)| + Count(recent) == |Current(v)| + 1
    && (hand in v.table || hand == e)
    && forall x :: x in w.table ==> x in v.table || x == e
  }

  lemma CarriedFirst<E>(hash: (int, E) -> nat, blank: E, v: View<E>, e: E)
    requires Located(hash, blank, v) && InHand(blank, v, e) && |v.table| > 0
    ensures Carried(hash, blank, v, e, v, e, true)
  {
  }

  lemma CarriedParts<E>(hash: (int, E) -> nat, blank: E, v: View<E>, e: E, w: View<E>, hand: E, recent: bool)
    requires Carried(hash, blank, v, e, w, hand, recent)
    ensures Shaped(v) && Located(hash, blank, w) && InHand(blank, w, hand)
    ensures Live(w) + {hand} == Live(v) + {e} && Young(v) + {e} <= Young(w) + {hand}
    ensures |Current(w)| <= |Current(v)| + 1 && forall x :: x in w.table ==> x in v.table || x == e
  {
    hide Located, InHand, Live, Young, Current;
  }

  lemma CarriedOn<E>(hash: (int, E) -> nat, blank: E, v: View<E>, e: E, w: View<E>, hand: E, recent: bool, i: int)
    requires Carried(hash, blank, v, e, w, hand, recent)
    requires 0 <= i < |w.table| && w.live[i] && IsLoc(hash, |w.table|, hand, i)
    ensures Carried(hash, blank, v, e, Put(w, i, hand, recent), w.table[i], w.recent[i])
  {
    hide Located, InHand, Live, Young, Current, IsLoc;
    PutSwap(w, i, hand, recent);
    PutYoung(w, i, hand, recent);
    PutLocated(hash, blank, w, i, hand, recent);
  }

  lemma CarriedIn<E>(hash: (int, E) -> nat, blank: E, v: View<E>, e: E, w: View<E>, hand: E, recent: bool, i: int)
    requires Carried(hash, blank, v, e, w, hand, recent)
    requires 0 <= i < |w.table| && !w.live[i] && IsLoc(hash, |w.table|, hand, i)
    ensures var u := Put(w, i, hand, recent);
      && Located(hash, blank, u) && Live(u) == Live(v) + {e} && Young(v) + {e} <= Young(u)
      && |Current(u)| <= |Current(v)| + 1 && forall x :: x in u.table ==> x in v.table || x == e
  {
    hide Located, InHand, Live, Young, Current, IsLoc;
    PutFree(w, i, hand, recent);
    PutYoung(w, i, hand, recent);
    PutLocated(hash, blank, w, i, hand, recent);
  }

  /** What ageing leaves: the current epoch, now old. */
  function Aged<E>(v: View<E>): View<E>
    requires Shaped(v)
  {
    View(v.table, seq(|v.live|, i requires 0 <= i < |v.live| => v.live[i] && v.recent[i]), seq(|v.recent|, i => false))
  }

  lemma AgedFacts<E>(hash: (int, E) -> nat, blank: E, v: View<E>)
    requires Located(hash, blank, v)
    ensures Located(hash, blank, Aged(v)) && Live(Aged(v)) == Young(v) && Young(v) <= Live(v) && Current(Aged(v)) == {}
  {
    hide IsLoc;
    var w := Aged(v);
    forall x | x in Live(w) ensures x in Young(v) {
      var j :| 0 <= j < |w.table| && w.live[j] && w.table[j] == x;
      assert v.live[j] && v.recent[j];
    }
    forall x | x in Young(v) ensures x in Live(w) && x in Live(v) {
      var j :| 0 <= j < |v.table| && v.live[j] && v.recent[j] && v.table[j] == x;
      assert w.live[j] && w.table[j] == x;
    }
  }

  /** Whether the next insertion ages the epochs. */
  predicate Ages<E>(v: View<E>, counter: int, epochSize: int)
    requires Shaped(v)
  {
    counter == 0 && |Current(v)| >= epochSize
  }

  /**
   * The countdown to the next scan: as many insertions as would fill the current epoch, but no fewer
   * than a sixteenth of it and one.
   */
  function NextCounter<E>(v: View<E>, counter: int, epochSize: int): int
    requires Shaped(v)
  {
    if counter != 0 then counter - 1
    else if Ages(v, counter, epochSize) then epochSize
    else Max(1, Max(epochSize / 16, epochSize - |Current(v)|))
  }

  lemma CounterFacts<E>(v: View<E>, counter: int, epochSize: int)
    requires Shaped(v) && counter >= 0
    ensures NextCounter(v, counter, epochSize) >= if Ages(v, counter, epochSize) then epochSize else counter - 1
  {
  }

  /** The contents once room has been made for an insertion. */
  function Checked<E>(v: View<E>, counter: int, epochSize: int): (w: View<E>)
    requires Shaped(v)
    ensures Shaped(w)
  {
    if Ages(v, counter, epochSize) then Aged(v) else v
  }

  lemma CheckedFacts<E>(hash: (int, E) -> nat, blank: E, v: View<E>, counter: int, epochSize: int)
    requires Located(hash, blank, v)
    ensures Live(Checked(v, counter, epochSize)) <= Live(v)
    ensures !Ages(v, counter, epochSize) ==> Checked(v, counter, epochSize) == v
    ensures Ages(v, counter, epochSize) ==> Live(Checked(v, counter, epochSize)) == Young(v)
  {
    AgedFacts(hash, blank, v);
  }

  /** How many slots of the current epoch there can ever be. */
  function EpochLimit(epochSize: int): int { epochSize + Max(1, epochSize / 16) }

  /** The bytes of the flags, in 32 bits: enough exactly for the sizes that leave room to round up. */
  function FlagBytes(n: nat): (r: nat)
    requires n < TWO_32
    ensures r == (n + 7) / 8 <==> n + 7 < TWO_32
  {
    if n + 7 < TWO_32 then (n + 7) / 8 else (n + 7 - TWO_32) / 8
  }

  class Cache<E(==)> {
    const hash: (int, E) -> nat
    /** The value that fills a new table. */
    const blank: E
    const size: nat
    const epochSize: int
    const depthLimit: nat
    const table: array<E>
    /** The garbage collection flags, eight to a byte; a set bit marks a slot that may be overwritten. */
    const flags: array<bv8>
    const epochFlags: array<bool>
    var counter: int

    ghost predicate Shape() {
      && size >= 2 && table.Length == size && epochFlags.Length == size && flags.Length == (size + 7) / 8
      && epochFlags as object != table && flags as object != table && flags as object != epochFlags
    }

    predicate IsCollected(i: int)
      requires Shape() && 0 <= i < size
      reads flags
    {
      Test(flags[i / 8], i % 8)
    }

    ghost function V(): (v: View<E>)
      requires Shape()
      reads table, flags, epochFlags
      ensures Shaped(v) && |v.table| == size
    {
      View(table[..], seq(size, i requires 0 <= i < size reads flags => !IsCollected(i)), epochFlags[..])
    }

    /** Elements are where `Contains` looks, and only there; the current epoch has room until the next scan. */
    ghost predicate Valid()
      reads this, table, flags, epochFlags
    {
      && Shape()
      && Located(hash, blank, V())
      && epochSize >= 1 && counter >= 0
      && |Current(V())| + counter <= EpochLimit(epochSize)
    }

    /**
     * `setup`. The multiplication by 45 and the size of the flags wrap at 32 bits.
     */
    constructor (hash: (int, E) -> nat, newSize: nat, depthLimit: nat, blank: E)
      requires newSize < TWO_32
      ensures this.hash == hash && this.blank == blank && this.depthLimit == depthLimit && size == Max(2, newSize)
      ensures Shape() <==> newSize + 7 < TWO_32
      ensures Shape() ==> Valid() && Live(V()) == {} && forall i :: 0 <= i < size ==> !epochFlags[i]
      ensures epochSize == counter == Max(1, 45 * size % TWO_32 / 100)
      ensures forall x :: x in table[..] ==> x == blank
      ensures fresh(table) && fresh(flags) && fresh(epochFlags)
    {
      var n := if newSize < 2 then 2 else newSize;
      var part := (45 * n % TWO_32) / 100;
      this.hash := hash;
      this.blank := blank;
      this.depthLimit := depthLimit;
      size := n;
      epochSize := if part < 1 then 1 else part;
      counter := if part < 1 then 1 else part;
      table := new E[n](i => blank);
      flags := new bv8[FlagBytes(n)](i => 0xFF);
      epochFlags := new bool[n](i => false);
      new;
      if n + 7 < TWO_32 {
        forall i | 0 <= i < size ensures IsCollected(i) {}
        hide IsCollected, FlagBytes;
        assert Current(V()) == {};
      }
    }

    method AllowErase(i: int)
      requires Shape() && 0 <= i < size
      modifies flags
      ensures V() == old(V()).(live := old(V()).live[i := false])
    {
      hide Test, SetBit;
      ghost var was := flags[..];
      flags[i / 8] := SetBit(flags[i / 8], i % 8);
      forall j | 0 <= j < size ensures IsCollected(j) <==> j == i || old(IsCollected(j)) {
        SetOne(was[i / 8], i % 8, j % 8);
      }
      assert V().live == old(V()).live[i := false];
    }

    method PleaseKeep(i: int)
      requires Shape() && 0 <= i < size
      modifies flags
      ensures V() == old(V()).(live := old(V()).live[i := true])
    {
      hide Test, ClearBit;
      ghost var was := flags[..];
      flags[i / 8] := ClearBit(flags[i / 8], i % 8);
      forall j | 0 <= j < size ensures IsCollected(j) <==> j != i && old(IsCollected(j)) {
        ClearOne(was[i / 8], i % 8, j % 8);
      }
      assert V().live == old(V()).live[i := true];
    }

    /** Stores an element in a slot, in use and of the given epoch. */
    method Store(i: int, e: E, recent: bool)
      requires Shape() && 0 <= i < size
      modifies table, flags, epochFlags
      ensures V() == Put(old(V()), i, e, recent)
    {
      hide IsCollected;
      table[i] := e;
      assert V() == old(V()).(table := old(V()).table[i := e]);
      PleaseKeep(i);
      epochFlags[i] := recent;
    }

    /** The number of slots of the current epoch that are not erased. */
    method CountCurrent() returns (count: nat)
      requires Shape()
      ensures count == |Current(V())|
    {
      hide IsCollected;
      count := 0;
      ghost var v, seen := V(), {};
      for i := 0 to size
        invariant seen == set j | j in Current(v) && j < i
        invariant count == |seen|
      {
        assert i in Current(v) <==> epochFlags[i] && !IsCollected(i);
        if epochFlags[i] && !IsCollected(i) {
          count := count + 1;
          seen := seen + {i};
        }
      }
      assert seen == Current(v);
    }

    /** Erases the old epoch and makes the current one old. */
    method Age()
      requires Shape()
      modifies flags, epochFlags
      ensures V() == Aged(old(V()))
    {
      hide IsCollected;
      ghost var v := V();
      for i := 0 to size
        invariant table[..] == v.table
        invariant forall j :: 0 <= j < i ==> V().live[j] == (v.live[j] && v.recent[j]) && !epochFlags[j]
        invariant forall j :: i <= j < size ==> V().live[j] == v.live[j] && epochFlags[j] == v.recent[j]
      {
        if epochFlags[i] {
          epochFlags[i] := false;
        } else {
          AllowErase(i);
        }
      }
      assert V() == Aged(v);
    }

    /** The eight candidate slots of an element. */
    function ComputeHashes(e: E): (locs: seq<int>)
      requires size > 0
      ensures |locs| == HASHES && forall i :: i in locs ==> 0 <= i < size
      ensures forall i :: i in locs <==> IsLoc(hash, size, e, i)
    {
      var locs := seq(HASHES, k => Loc(hash, size, e, k));
      assert forall k :: 0 <= k < HASHES ==> locs[k] == Loc(hash, size, e, k);
      assert forall i :: IsLoc(hash, size, e, i) ==> i in locs by {
        forall i | IsLoc(hash, size, e, i) ensures i in locs {
          var k :| 0 <= k < HASHES && Loc(hash, size, e, k) == i;
          assert locs[k] == i;
        }
      }
      locs
    }

    lemma LocsInOrder(e: E)
      requires size > 0
      ensures forall k :: 0 <= k < HASHES ==> ComputeHashes(e)[k] == Loc(hash, size, e, k)
    {
    }

    /** Makes room for one more element of the current epoch, ageing the epochs when it is full. */
    method EpochCheck()
      requires Valid()
      modifies this, flags, epochFlags
      ensures Valid() && |Current(V())| + 1 + counter <= EpochLimit(epochSize)
      ensures V() == Checked(old(V()), old(counter), epochSize)
      ensures counter == NextCounter(old(V()), old(counter), epochSize)
    {
      hide Located, Current;
      if counter != 0 {
        counter := counter - 1;
        return;
      }
      var count := CountCurrent();
      if count >= epochSize {
        AgedFacts(hash, blank, V());
        Age();
        counter := epochSize;
      } else {
        counter := Max(1, Max(epochSize / 16, epochSize - count));
      }
    }

    /** The first of some slots that holds `e`, or 8. */
    method FindElement(locs: seq<int>, e: E) returns (k: nat)
      requires Shape() && |locs| == HASHES && forall k :: 0 <= k < HASHES ==> 0 <= locs[k] < size
      ensures k <= HASHES && (k < HASHES ==> table[locs[k]] == e)
      ensures forall j :: 0 <= j < k ==> table[locs[j]] != e
    {
      k := 0;
      while k < HASHES && table[locs[k]] != e
        invariant 0 <= k <= HASHES && forall j :: 0 <= j < k ==> table[locs[j]] != e
      {
        k := k + 1;
      }
    }

    /** The first of some slots that may be overwritten, or 8. */
    method FindFree(locs: seq<int>) returns (k: nat)
      requires Shape() && |locs| == HASHES && forall k :: 0 <= k < HASHES ==> 0 <= locs[k] < size
      ensures k <= HASHES && (k < HASHES ==> !V().live[locs[k]])
      ensures forall j :: 0 <= j < k ==> V().live[locs[j]]
    {
      k := 0;
      while k < HASHES && !IsCollected(locs[k])
        invariant 0 <= k <= HASHES && forall j :: 0 <= j < k ==> V().live[locs[j]]
      {
        k := k + 1;
      }
    }

    /** Exchanges the element in hand with that of a slot in use. */
    method Swap(i: int, e: E, recent: bool) returns (other: E, epoch: bool)
      requires Shape() && Located(hash, blank, V()) && InHand(blank, V(), e)
      requires IsLoc(hash, size, e, i) && 0 <= i < size && V().live[i]
      modifies table, epochFlags
      ensures Located(hash, blank, V()) && InHand(blank, V(), other)
      ensures Live(V()) + {other} == Live(old(V())) + {e}
      ensures |Current(V())| + Count(epoch) == |Current(old(V()))| + Count(recent)
      ensures Young(V()) + (if epoch then {other} else {}) == Young(old(V())) + (if recent then {e} else {})
      ensures V() == Put(old(V()), i, e, recent) && other == old(table[i]) && epoch == old(epochFlags[i])
    {
      hide IsCollected, Located, InHand, Live, Current, IsLoc, Young;
      ghost var v := V();
      other, epoch := table[i], epochFlags[i];
      table[i] := e;
      epochFlags[i] := recent;
      assert V() == Put(v, i, e, recent);
      PutSwap(v, i, e, recent);
      PutYoung(v, i, e, recent);
      PutLocated(hash, blank, v, i, e, recent);
    }

    /**
     * Moves elements along until one finds a free slot; after `depthLimit` moves the element in
     * hand is dropped.
     */
    method Displace(e: E) returns (ghost dropped: set<E>, ghost hands: seq<Hand<E>>)
      requires Shape() && Located(hash, blank, V()) && InHand(blank, V(), e)
      modifies table, flags, epochFlags
      ensures Located(hash, blank, V())
      ensures Settled(hash, depthLimit, old(V()), e, hands, V(), dropped)
      ensures |dropped| <= 1 && forall x :: x in dropped ==> InHand(blank, V(), x)
      ensures Live(V()) + dropped == Live(old(V())) + {e} && Young(old(V())) + {e} <= Young(V()) + dropped
      ensures depthLimit > 0 && !Crowded(hash, old(V()), e) ==> dropped == {}
      ensures |Current(V())| <= |Current(old(V()))| + 1
      ensures forall x :: x in table[..] ==> x in old(table[..]) || x == e
    {
      hide IsCollected, Located, InHand, Live, Current, IsLoc, Young, Crowded, Loc, Carried, Put, Chain, FirstFree,
        NextLoc;
      var hand, recent, last := e, true, -1;
      var locs := ComputeHashes(hand);
      ghost var v := V();
      hands := [Hand(v, e, true, -1)];
      CarriedFirst(hash, blank, v, e);
      FirstHand(hash, v, e);
      for depth := 0 to depthLimit
        invariant locs == ComputeHashes(hand)
        invariant if depth == 0 then hand == e && V() == v else Crowded(hash, v, e)
        invariant Carried(hash, blank, v, e, V(), hand, recent)
        invariant Chain(hash, v, e, hands) && |hands| == depth + 1
        invariant hands[depth] == Hand(V(), hand, recent, last)
      {
        LocsInOrder(hand);
        var k := FindFree(locs);
        if k < HASHES {
          FreeAt(hash, V(), hand, k);
          CarriedIn(hash, blank, v, e, V(), hand, recent, locs[k]);
          Store(locs[k], hand, recent);
          dropped := {};
          assert table[..] == V().table;
          return;
        }
        AllInUse(hash, V(), hand);
        CarriedParts(hash, blank, v, e, V(), hand, recent);
        last := NextOf(hand, locs, last);
        CarriedOn(hash, blank, v, e, V(), hand, recent, last);
        hand, recent := Swap(last, hand, recent);
        ChainNext(hash, v, e, hands, Hand(V(), hand, recent, last));
        hands := hands + [Hand(V(), hand, recent, last)];
        locs := ComputeHashes(hand);
      }
      CarriedParts(hash, blank, v, e, V(), hand, recent);
      dropped := {hand};
      assert table[..] == V().table;
    }

    /** The candidate after the last one that was used. */
    method NextOf(e: E, locs: seq<int>, last: int) returns (next: int)
      requires size > 0 && locs == ComputeHashes(e)
      ensures next == NextLoc(hash, size, e, last) && IsLoc(hash, size, e, next)
    {
      LocsInOrder(e);
      var j := IndexOf(locs, last);
      next := locs[(1 + j) % HASHES];
      assert j == FirstIndex(hash, size, e, last, 0) by {
        hide Loc, IsLoc;
        assert forall i :: 0 <= i < j ==> locs[..j][i] == locs[i];
      }
    }

    /** An element that is already stored is kept, in the current epoch. */
    method Keep(i: int, e: E)
      requires Shape() && Located(hash, blank, V())
      requires 0 <= i < size && table[i] == e && IsLoc(hash, size, e, i)
      modifies flags, epochFlags
      ensures Located(hash, blank, V()) && V() == Put(old(V()), i, e, true)
      ensures Live(V()) == Live(old(V())) + {e} && Young(old(V())) + {e} <= Young(V())
      ensures |Current(V())| <= |Current(old(V()))| + 1
    {
      hide IsCollected, Located, Live, Current, IsLoc, Young;
      ghost var v := V();
      PutSame(v, i, e);
      PutYoung(v, i, e, true);
      KeepLocated(hash, blank, v, i, e);
      PleaseKeep(i);
      epochFlags[i] := true;
      assert V() == Put(v, i, e, true);
    }

    /** Adds an element; at most one element, perhaps the new one, is lost. */
    method Insert(e: E) returns (ghost dropped: set<E>, ghost hands: seq<Hand<E>>)
      requires Valid()
      modifies this, table, flags, epochFlags
      ensures Valid() && counter == NextCounter(old(V()), old(counter), epochSize)
      ensures |dropped| <= 1 && forall x :: x in dropped ==> InHand(blank, V(), x)
      ensures var v := Checked(old(V()), old(counter), epochSize);
        && Live(V()) + dropped == Live(v) + {e} && Young(v) + {e} <= Young(V()) + dropped
        && (depthLimit > 0 && !Crowded(hash, v, e) ==> dropped == {})
        && (if exists k :: 0 <= k < HASHES && v.table[Loc(hash, size, e, k)] == e then
              exists k :: 0 <= k < HASHES && Refreshed(hash, v, e, k, V())
            else Settled(hash, depthLimit, v, e, hands, V(), dropped))
      ensures e in old(table[..]) && e != blank ==> dropped == {}
      ensures forall x :: x in table[..] ==> x in old(table[..]) || x == e
    {
      hide IsCollected, Located, InHand, Live, Current, IsLoc, Checked, Young, Ages, Settled, Loc, Put;
      hands := [];
      EpochCheck();
      var locs := ComputeHashes(e);
      LocsInOrder(e);
      var k := FindElement(locs, e);
      if k < HASHES {
        ghost var v := V();
        Keep(locs[k], e);
        assert Refreshed(hash, v, e, k, V());
        dropped := {};
        return;
      }
      AbsentFromSlots(hash, blank, V(), e);
      NotInHand(blank, V(), e);
      dropped, hands := Displace(e);
    }

    /** Whether the element is stored, in use or not; an element in use is always found. */
    method Contains(e: E, erase: bool) returns (found: bool)
      requires Valid()
      modifies flags
      ensures Valid() && V().table == old(V()).table && V().recent == old(V()).recent
      ensures e in Live(old(V())) ==> found
      ensures e != blank ==> (found <==> e in table[..])
      ensures Live(old(V())) - {e} <= Live(V()) <= Live(old(V())) && Young(old(V())) - {e} <= Young(V())
      ensures erase && e != blank ==> Live(V()) == Live(old(V())) - {e}
      ensures !erase || !found ==> V() == old(V())
    {
      hide IsCollected, InHand, Live, Current, IsLoc, Located, Young;
      var locs := ComputeHashes(e);
      LocsInOrder(e);
      var k := FindElement(locs, e);
      found := k < HASHES;
      if e in Live(V()) {
        LiveIsFound(hash, blank, V(), e);
      }
      if found {
        assert e in table[..];
        if erase {
          Erase(hash, blank, V(), locs[k]);
          AllowErase(locs[k]);
        }
      } else {
        AbsentFromSlots(hash, blank, V(), e);
        NotInHand(blank, V(), e);
      }
    }
  }

  /** The first candidate that holds the element is in use and of the current epoch; nothing else changes. */
  ghost predicate Refreshed<E>(hash: (int, E) -> nat, v: View<E>, e: E, k: int, w: View<E>)
    requires Shaped(v) && |v.table| > 0
  {
    var i := Loc(hash, |v.table|, e, k);
    && v.table[i] == e && w == Put(v, i, e, true)
    && forall j :: 0 <= j < k ==> v.table[Loc(hash, |v.table|, e, j)] != e
  }

  lemma FirstHand<E>(hash: (int, E) -> nat, v: View<E>, e: E)
    ensures Chain(hash, v, e, [Hand(v, e, true, -1)])
  {
  }

  lemma FreeAt<E>(hash: (int, E) -> nat, v: View<E>, e: E, k: nat)
    requires Shaped(v) && |v.table| > 0 && k < HASHES && !v.live[Loc(hash, |v.table|, e, k)]
    requires forall j :: 0 <= j < k ==> v.live[Loc(hash, |v.table|, e, j)]
    ensures FirstFree(hash, v, e, Loc(hash, |v.table|, e, k))
  {
  }

  lemma NotInHand<E>(blank: E, v: View<E>, e: E)
    requires InHand(blank, v, e)
    ensures e in v.table ==> e == blank
  {
  }

  datatype Call<E> = InsertCall(e: E) | ContainsCall(e: E, erase: bool)

  function Inserted<E>(calls: seq<Call<E>>): set<E> {
    set c | c in calls && c.InsertCall? :: c.e
  }

  lemma InsertedStep<E>(calls: seq<Call<E>>, k: nat)
    requires k < |calls|
    ensures Inserted(calls[..k + 1]) == Inserted(calls[..k]) + Inserted([calls[k]])
  {
    assert calls[..k + 1] == calls[..k] + [calls[k]];
  }

  // Retention over runs.

  /** How many of the calls insert. */
  function Inserts<E>(calls: seq<Call<E>>): nat {
    if calls == [] then 0 else Inserts(calls[..|calls| - 1]) + Count(calls[|calls| - 1].InsertCall?)
  }

  lemma InsertsNext<E>(calls: seq<Call<E>>, i: nat, k: nat)
    requires i <= k < |calls|
    ensures Inserts(calls[i..k + 1]) == Inserts(calls[i..k]) + Count(calls[k].InsertCall?)
  {
    assert calls[i..k + 1][..k - i] == calls[i..k];
  }

  /** The element inserted by call `i` is since then, up to call `k`, neither erased nor lost nor aged out. */
  ghost predicate Kept<E>(calls: seq<Call<E>>, lost: seq<set<E>>, aged: seq<set<E>>, i: nat, k: nat)
    requires i < k <= |calls| && |lost| >= k && |aged| >= k
  {
    && calls[i].InsertCall? && calls[i].e !in lost[i]
    && forall j :: i < j < k ==>
      calls[i].e !in lost[j] && calls[i].e !in aged[j] && calls[j] != ContainsCall(calls[i].e, true)
  }

  /** The elements kept so far are live. */
  ghost predicate Retained<E>(calls: seq<Call<E>>, lost: seq<set<E>>, aged: seq<set<E>>, k: nat, live: set<E>) {
    && k <= |calls| && |lost| == k && |aged| == k
    && forall i :: 0 <= i < k && Kept(calls, lost, aged, i, k) ==> calls[i].e in live
  }

  lemma KeptBefore<E>(calls: seq<Call<E>>, lost: seq<set<E>>, aged: seq<set<E>>, i: nat, k: nat, l: set<E>, a: set<E>)
    requires i <= k < |calls| && |lost| == |aged| == k && Kept(calls, lost + [l], aged + [a], i, k + 1)
    ensures i < k ==> Kept(calls, lost, aged, i, k) && calls[i].e !in a && calls[k] != ContainsCall(calls[i].e, true)
    ensures calls[i].e !in l
  {
    var m, b := lost + [l], aged + [a];
    assert m[k] == l && b[k] == a;
    if i < k {
      assert m[i] == lost[i];
      forall j | i < j < k ensures calls[i].e !in lost[j] && calls[i].e !in aged[j] {
        assert m[j] == lost[j] && b[j] == aged[j];
      }
    }
  }

  lemma RetainedNext<E>(calls: seq<Call<E>>, lost: seq<set<E>>, aged: seq<set<E>>, k: nat, live: set<E>,
                        l: set<E>, a: set<E>, now: set<E>)
    requires k < |calls| && Retained(calls, lost, aged, k, live)
    requires calls[k].InsertCall? ==> live - a + {calls[k].e} <= now + l
    requires calls[k].ContainsCall? ==> now <= live && live - (if calls[k].erase then {calls[k].e} else {}) <= now
    ensures Retained(calls, lost + [l], aged + [a], k + 1, now)
  {
    hide Kept;
    forall i | 0 <= i < k + 1 && Kept(calls, lost + [l], aged + [a], i, k + 1) ensures calls[i].e in now {
      assert calls[i].InsertCall? by { KeptInserts(calls, lost + [l], aged + [a], i, k + 1); }
      KeptBefore(calls, lost, aged, i, k, l, a);
      if i < k {
        var x := calls[i].e;
        assert x in live;
        if calls[k].InsertCall? {
          assert x in live - a + {calls[k].e};
        } else {
          assert x in live - (if calls[k].erase then {calls[k].e} else {});
        }
      }
    }
  }

  lemma KeptInserts<E>(calls: seq<Call<E>>, lost: seq<set<E>>, aged: seq<set<E>>, i: nat, k: nat)
    requires i < k <= |calls| && |lost| >= k && |aged| >= k && Kept(calls, lost, aged, i, k)
    ensures calls[i].InsertCall?
  {
  }

  /** For an element of the old epoch, the insertions since its own and the countdown exceed an epoch. */
  ghost predicate Ripe<E>(calls: seq<Call<E>>, blank: E, k: nat, live: set<E>, young: set<E>, counter: int,
                          epochSize: int)
    requires k <= |calls|
  {
    forall i :: 0 <= i < k && calls[i].InsertCall? && calls[i].e in live - young - {blank} ==>
      Inserts(calls[i + 1..k]) + counter > epochSize
  }

  lemma RipeContains<E>(calls: seq<Call<E>>, blank: E, k: nat, live: set<E>, young: set<E>, counter: int,
                        epochSize: int, live': set<E>, young': set<E>)
    requires k < |calls| && calls[k].ContainsCall? && Ripe(calls, blank, k, live, young, counter, epochSize)
    requires live' - young' - {blank} <= live - young - {blank}
    ensures Ripe(calls, blank, k + 1, live', young', counter, epochSize)
  {
    forall i | 0 <= i < k + 1 && calls[i].InsertCall? && calls[i].e in live' - young' - {blank}
      ensures Inserts(calls[i + 1..k + 1]) + counter > epochSize
    {
      InsertsNext(calls, i + 1, k);
    }
  }

  lemma RipeInsert<E>(calls: seq<Call<E>>, blank: E, k: nat, live: set<E>, young: set<E>, counter: int,
                      epochSize: int, live': set<E>, young': set<E>, counter': int)
    requires k < |calls| && calls[k].InsertCall? && Ripe(calls, blank, k, live, young, counter, epochSize)
    requires calls[k].e !in live' - young' - {blank}
    requires counter' >= epochSize || (counter' >= counter - 1 && live' - young' - {blank} <= live - young - {blank})
    ensures Ripe(calls, blank, k + 1, live', young', counter', epochSize)
  {
    forall i | 0 <= i < k + 1 && calls[i].InsertCall? && calls[i].e in live' - young' - {blank}
      ensures Inserts(calls[i + 1..k + 1]) + counter' > epochSize
    {
      InsertsNext(calls, i + 1, k);
    }
  }

  /** Elements are aged out only after more than an epoch of later insertions. */
  ghost predicate AgedLate<E>(calls: seq<Call<E>>, blank: E, aged: seq<set<E>>, epochSize: int)
    requires |aged| <= |calls|
  {
    forall i, j :: 0 <= i < j < |aged| && calls[i].InsertCall? && calls[i].e in aged[j] - {blank} ==>
      Inserts(calls[i + 1..j]) > epochSize
  }

  lemma AgedLateNext<E>(calls: seq<Call<E>>, blank: E, aged: seq<set<E>>, a: set<E>, live: set<E>, young: set<E>,
                        epochSize: int)
    requires |aged| < |calls| && AgedLate(calls, blank, aged, epochSize)
    requires a == {} || (a <= live - young && Ripe(calls, blank, |aged|, live, young, 0, epochSize))
    ensures AgedLate(calls, blank, aged + [a], epochSize)
  {
    var b := aged + [a];
    forall i, j | 0 <= i < j < |b| && calls[i].InsertCall? && calls[i].e in b[j] - {blank}
      ensures Inserts(calls[i + 1..j]) > epochSize
    {
      assert j < |aged| ==> b[j] == aged[j];
    }
  }

  /** What an insertion does to the sets of live and of current elements. */
  lemma InsertSets<E>(blank: E, v: View<E>, w: View<E>, live: set<E>, young: set<E>, e: E, dropped: set<E>)
    requires Shaped(v) && Shaped(w) && Live(w) + dropped == live + {e} && young + {e} <= Young(w) + dropped
    requires forall x :: x in dropped ==> InHand(blank, w, x)
    ensures e !in Live(w) - Young(w) - {blank}
    ensures Live(w) - Young(w) - {blank} <= live - young
  {
    forall x | x in dropped && x != blank ensures x !in Live(w) {
      assert InHand(blank, w, x);
    }
  }

  /** One call, and what it loses. */
  method Perform<E(==)>(cache: Cache<E>, calls: seq<Call<E>>, k: nat, ghost lost: seq<set<E>>, ghost aged: seq<set<E>>)
    returns (found: bool, ghost l: set<E>, ghost a: set<E>)
    requires cache.Valid() && k < |calls| && Retained(calls, lost, aged, k, Live(cache.V()))
    requires AgedLate(calls, cache.blank, aged, cache.epochSize)
    requires Ripe(calls, cache.blank, k, Live(cache.V()), Young(cache.V()), cache.counter, cache.epochSize)
    modifies cache, cache.table, cache.flags, cache.epochFlags
    ensures cache.Valid() && |l| <= 1 && (calls[k].ContainsCall? ==> l == {} && a == {})
    ensures Retained(calls, lost + [l], aged + [a], k + 1, Live(cache.V()))
    ensures AgedLate(calls, cache.blank, aged + [a], cache.epochSize)
    ensures Ripe(calls, cache.blank, k + 1, Live(cache.V()), Young(cache.V()), cache.counter, cache.epochSize)
    ensures Live(cache.V()) <= Live(old(cache.V())) + Inserted([calls[k]])
    ensures forall x :: x in cache.table[..] ==> x in old(cache.table[..]) || x in Inserted([calls[k]])
    ensures calls[k].ContainsCall? ==>
      && (calls[k].e in Live(old(cache.V())) ==> found)
      && (calls[k].e != cache.blank ==> (found <==> calls[k].e in old(cache.table[..])))
  {
    hide Cache.IsCollected, Located, Live, Current, Checked, IsLoc, Aged, EpochLimit, Young, Ages, Retained, Ripe,
      AgedLate, InHand, Crowded;
    ghost var v, c, blank := cache.V(), cache.counter, cache.blank;
    found, l, a := false, {}, {};
    match calls[k] {
      case InsertCall(e) =>
        CheckedFacts(cache.hash, blank, v, c, cache.epochSize);
        CounterFacts(v, c, cache.epochSize);
        ghost var checked := Checked(v, c, cache.epochSize);
        ghost var hands;
        l, hands := cache.Insert(e);
        a := Live(v) - Live(checked);
        InsertedOne(calls[k]);
        InsertRetained(calls, blank, lost, aged, k, v, c, cache.epochSize, checked, cache.V(), cache.counter, l);
      case ContainsCall(e, erase) =>
        found := cache.Contains(e, erase);
        ContainsRetained(calls, blank, lost, aged, k, v, c, cache.epochSize, cache.V());
    }
  }

  lemma InsertedOne<E>(c: Call<E>)
    requires c.InsertCall?
    ensures Inserted([c]) == {c.e}
  {
    assert c in [c];
  }

  lemma InsertRetained<E>(calls: seq<Call<E>>, blank: E, lost: seq<set<E>>, aged: seq<set<E>>, k: nat, v: View<E>,
                          c: int, epochSize: int, checked: View<E>, w: View<E>, c': int, l: set<E>)
    requires k < |calls| && calls[k].InsertCall? && Shaped(v) && Shaped(checked) && Shaped(w)
    requires Retained(calls, lost, aged, k, Live(v)) && AgedLate(calls, blank, aged, epochSize)
    requires Ripe(calls, blank, k, Live(v), Young(v), c, epochSize)
    requires if Ages(v, c, epochSize) then Live(checked) == Young(v) && c' >= epochSize
      else checked == v && c' >= c - 1
    requires Live(w) + l == Live(checked) + {calls[k].e} && Young(checked) + {calls[k].e} <= Young(w) + l
    requires Live(checked) <= Live(v) && forall x :: x in l ==> InHand(blank, w, x)
    ensures var a := Live(v) - Live(checked);
      && Retained(calls, lost + [l], aged + [a], k + 1, Live(w)) && AgedLate(calls, blank, aged + [a], epochSize)
      && Ripe(calls, blank, k + 1, Live(w), Young(w), c', epochSize)
  {
    assert |aged| == k;
    assert Ages(v, c, epochSize) ==> c == 0;
    hide Live, Current, Young, Ages, Retained, Ripe, AgedLate, InHand;
    var a := Live(v) - Live(checked);
    InsertSets(blank, v, w, Live(checked), Young(checked), calls[k].e, l);
    RetainedNext(calls, lost, aged, k, Live(v), l, a, Live(w));
    AgedLateNext(calls, blank, aged, a, Live(v), Young(v), epochSize);
    RipeInsert(calls, blank, k, Live(v), Young(v), c, epochSize, Live(w), Young(w), c');
  }

  lemma ContainsRetained<E>(calls: seq<Call<E>>, blank: E, lost: seq<set<E>>, aged: seq<set<E>>, k: nat, v: View<E>,
                            c: int, epochSize: int, w: View<E>)
    requires k < |calls| && calls[k].ContainsCall? && Shaped(v) && Shaped(w)
    requires Retained(calls, lost, aged, k, Live(v)) && AgedLate(calls, blank, aged, epochSize)
    requires Ripe(calls, blank, k, Live(v), Young(v), c, epochSize)
    requires Live(v) - {calls[k].e} <= Live(w) <= Live(v) && Young(v) - {calls[k].e} <= Young(w)
    requires if calls[k].erase then calls[k].e != blank ==> calls[k].e !in Live(w) else w == v
    ensures Retained(calls, lost + [{}], aged + [{}], k + 1, Live(w)) && AgedLate(calls, blank, aged + [{}], epochSize)
    ensures Ripe(calls, blank, k + 1, Live(w), Young(w), c, epochSize)
  {
    assert |aged| == k;
    hide Live, Young, Retained, Ripe, AgedLate;
    RetainedNext(calls, lost, aged, k, Live(v), {}, {}, Live(w));
    AgedLateNext(calls, blank, aged, {}, Live(v), Young(v), epochSize);
    RipeContains(calls, blank, k, Live(v), Young(v), c, epochSize, Live(w), Young(w));
  }

  /** Each call loses at most one element, and only an insertion loses or ages any. */
  ghost predicate FewLost<E>(calls: seq<Call<E>>, lost: seq<set<E>>, aged: seq<set<E>>) {
    && |lost| == |aged| <= |calls|
    && forall k :: 0 <= k < |lost| ==> |lost[k]| <= 1 && (calls[k].ContainsCall? ==> lost[k] == aged[k] == {})
  }

  lemma FewLostNext<E>(calls: seq<Call<E>>, lost: seq<set<E>>, aged: seq<set<E>>, l: set<E>, a: set<E>)
    requires FewLost(calls, lost, aged) && |lost| < |calls|
    requires |l| <= 1 && (calls[|lost|].ContainsCall? ==> l == a == {})
    ensures FewLost(calls, lost + [l], aged + [a])
  {
  }

  predicate Asks<E(==)>(calls: seq<Call<E>>, i: nat, k: nat)
    requires i < |calls| && k < |calls|
  {
    calls[k].ContainsCall? && calls[k].e == calls[i].e
  }

  /** A kept element is reported. */
  ghost predicate Reported<E>(calls: seq<Call<E>>, lost: seq<set<E>>, aged: seq<set<E>>, answers: seq<bool>) {
    && |answers| == |lost| == |aged| <= |calls|
    && forall i, k :: 0 <= i < k < |answers| && Asks(calls, i, k) && Kept(calls, lost, aged, i, k) ==> answers[k]
  }

  lemma ReportedNext<E>(calls: seq<Call<E>>, lost: seq<set<E>>, aged: seq<set<E>>, answers: seq<bool>,
                        l: set<E>, a: set<E>, live: set<E>, found: bool)
    requires Reported(calls, lost, aged, answers) && |answers| < |calls|
    requires Retained(calls, lost, aged, |answers|, live)
    requires calls[|answers|].ContainsCall? && calls[|answers|].e in live ==> found
    ensures Reported(calls, lost + [l], aged + [a], answers + [found])
  {
    var m, b := lost + [l], aged + [a];
    forall i, k | 0 <= i < k < |answers| + 1 && Asks(calls, i, k) && Kept(calls, m, b, i, k)
      ensures (answers + [found])[k]
    {
      forall j | i <= j < k ensures m[j] == lost[j] && b[j] == aged[j] {}
      assert Kept(calls, lost, aged, i, k);
    }
  }

  lemma NothingYet<E>(calls: seq<Call<E>>, blank: E, counter: int, epochSize: int)
    ensures Retained(calls, [], [], 0, {}) && AgedLate(calls, blank, [], epochSize)
    ensures FewLost(calls, [], []) && Reported(calls, [], [], [])
    ensures forall young :: Ripe(calls, blank, 0, {}, young, counter, epochSize)
  {
  }

  /**
   * Every run from a new cache. Only inserted elements are ever reported, and the slots of the
   * current epoch never exceed their limit. An inserted element that is not erased stays live, and
   * is reported, unless it is the one element that an insertion loses or it is aged out, which takes
   * more than `epochSize` insertions after its own.
   */
  method Run<E(==)>(hash: (int, E) -> nat, newSize: nat, depthLimit: nat, blank: E, calls: seq<Call<E>>)
    returns (cache: Cache<E>, answers: seq<bool>, ghost lost: seq<set<E>>, ghost aged: seq<set<E>>)
    requires newSize + 7 < TWO_32
    ensures cache.Valid() && cache.blank == blank && |answers| == |lost| == |aged| == |calls|
    ensures Live(cache.V()) <= Inserted(calls)
    ensures |Current(cache.V())| <= EpochLimit(cache.epochSize)
    ensures forall k :: 0 <= k < |calls| && calls[k].ContainsCall? && answers[k] && calls[k].e != blank ==>
      calls[k].e in Inserted(calls[..k])
    ensures FewLost(calls, lost, aged) && Reported(calls, lost, aged, answers)
    ensures forall i :: 0 <= i < |calls| && Kept(calls, lost, aged, i, |calls|) ==> calls[i].e in Live(cache.V())
    ensures AgedLate(calls, blank, aged, cache.epochSize)
  {
    hide Cache.IsCollected, Located, Live, Current, Checked, Inserted, IsLoc, Aged, EpochLimit, Young, Ripe,
      AgedLate, Kept, FewLost, Reported;
    cache := new Cache(hash, newSize, depthLimit, blank);
    answers, lost, aged := [], [], [];
    NothingYet(calls, blank, cache.counter, cache.epochSize);
    for k := 0 to |calls|
      invariant cache.Valid() && |answers| == k && cache.blank == blank
      invariant Live(cache.V()) <= Inserted(calls[..k])
      invariant forall x :: x in cache.table[..] ==> x == blank || x in Inserted(calls[..k])
      invariant forall j :: 0 <= j < k && calls[j].ContainsCall? && answers[j] && calls[j].e != blank ==>
        calls[j].e in Inserted(calls[..j])
      invariant Retained(calls, lost, aged, k, Live(cache.V())) && AgedLate(calls, blank, aged, cache.epochSize)
      invariant Ripe(calls, blank, k, Live(cache.V()), Young(cache.V()), cache.counter, cache.epochSize)
      invariant FewLost(calls, lost, aged) && Reported(calls, lost, aged, answers)
    {
      InsertedStep(calls, k);
      ghost var live := Live(cache.V());
      var found;
      ghost var l, a;
      found, l, a := Perform(cache, calls, k, lost, aged);
      FewLostNext(calls, lost, aged, l, a);
      ReportedNext(calls, lost, aged, answers, l, a, live, found);
      answers, lost, aged := answers + [found], lost + [l], aged + [a];
    }
    assert calls[..|calls|] == calls;
  }

  function Count(b: bool): nat { if b then 1 else 0 }

  method IndexOf(locs: seq<int>, x: int) returns (k: nat)
    ensures k <= |locs| && (k < |locs| ==> locs[k] == x) && x !in locs[..k]
  {
    k := 0;
    while k < |locs| && locs[k] != x
      invariant k <= |locs| && x !in locs[..k]
    {
      k := k + 1;
    }
  }
}
