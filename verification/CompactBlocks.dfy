/**
 * Compact block relay: a block is sent as short ids and a few whole
 * transactions, and rebuilt from the receiver's own transactions and those it
 * asks for.
 */
module CompactBlocks {
  import opened Common

  const MAX_TX_COUNT: int := MAX_BLOCK_WEIGHT / 40
  const TWO_16: int := 0x1_0000

  /** A transaction; `hash` is the one that short ids are taken of. */
  datatype Tx = Tx(hash: nat, body: nat)

  /** A transaction sent whole, at a distance from the one before; `None` stands for an empty one. */
  datatype Prefilled = Prefilled(index: nat, tx: Option<Tx>)

  datatype Message = Message(nullHeader: bool, short: seq<nat>, prefilled: seq<Prefilled>)

  datatype Status = Ok | Invalid | Failed | CheckBlockFailed

  type Slots = seq<Option<Tx>>

  // Positions of the prefilled transactions.

  /** The position in the block of prefilled transaction `i`, or -1 before the first. */
  function Position(p: seq<Prefilled>, i: int): int
    requires i < |p|
    decreases i + 1
  {
    if i < 0 then -1 else Position(p, i - 1) + p[i].index + 1
  }

  lemma {:induction false} PositionsIncrease(p: seq<Prefilled>, i: int, j: int)
    requires -1 <= i < j < |p|
    ensures Position(p, i) < Position(p, j)
    decreases j
  {
    if i < j - 1 {
      PositionsIncrease(p, i, j - 1);
    }
  }

  /** What makes prefilled transaction `i` acceptable among `n` short ids. */
  predicate Placeable(p: seq<Prefilled>, n: nat, i: nat)
    requires i < |p|
  {
    p[i].tx.Some? && Position(p, i) <= MAX_UINT16 && Position(p, i) <= n + i
  }

  predicate AllPlaceable(p: seq<Prefilled>, n: nat) {
    forall i :: 0 <= i < |p| ==> Placeable(p, n, i)
  }

  /** The slots after the first `i` prefilled transactions are placed among `total`. */
  function Placed(p: seq<Prefilled>, total: nat, i: nat): (s: Slots)
    requires i <= |p|
    ensures |s| == total
  {
    if i == 0 then seq(total, _ => None)
    else
      var s, k := Placed(p, total, i - 1), Position(p, i - 1);
      if 0 <= k < total then s[k := p[i - 1].tx] else s
  }

  // Free slots.

  /** The free slots below `n`, in order. */
  function Free(s: Slots, n: nat): (r: seq<int>)
    requires n <= |s|
    ensures |r| <= n
    ensures forall k :: 0 <= k < |r| ==> 0 <= r[k] < n && s[r[k]] == None
    ensures forall j, k :: 0 <= j < k < |r| ==> r[j] < r[k]
  {
    if n == 0 then [] else if s[n - 1].None? then Free(s, n - 1) + [n - 1] else Free(s, n - 1)
  }

  lemma {:induction false} FreeComplete(s: Slots, n: nat, i: nat)
    requires i < n <= |s| && s[i].None?
    ensures |Free(s, i)| < |Free(s, n)| && Free(s, n)[|Free(s, i)|] == i
    decreases n
  {
    if i < n - 1 {
      FreeComplete(s, n - 1, i);
    }
  }

  lemma FreeNone(s: Slots)
    ensures Free(s, 0) == []
  {
  }

  lemma FreeNext(s: Slots, n: nat)
    requires n < |s|
    ensures Free(s, n + 1) == if s[n].None? then Free(s, n) + [n] else Free(s, n)
  {
  }

  lemma {:induction false} FreeMonotone(s: Slots, m: nat, n: nat)
    requires m <= n <= |s|
    ensures |Free(s, m)| <= |Free(s, n)|
    decreases n
  {
    if m < n {
      FreeMonotone(s, m, n - 1);
    }
  }

  lemma {:induction false} FreeAll(s: Slots, n: nat)
    requires n <= |s| && forall i :: 0 <= i < n ==> s[i].None?
    ensures |Free(s, n)| == n
  {
    if n > 0 {
      FreeAll(s, n - 1);
    }
  }

  /** Filling a free slot leaves one fewer. */
  lemma {:induction false} FreeAfter(s: Slots, n: nat, i: nat, t: Tx)
    requires n <= |s| && i < |s| && s[i].None?
    ensures |Free(s[i := Some(t)], n)| == |Free(s, n)| - (if i < n then 1 else 0)
  {
    if n > 0 {
      FreeAfter(s, n - 1, i, t);
    }
  }

  /** After `i` placements, nothing stands after the last position, and `i` slots are taken. */
  lemma {:induction false} PlacedFree(p: seq<Prefilled>, n: nat, i: nat)
    requires i <= |p| && forall j :: 0 <= j < i ==> Placeable(p, n, j)
    ensures var s := Placed(p, n + |p|, i);
      && |Free(s, n + |p|)| == n + |p| - i
      && (forall k :: 0 <= k < |s| && Position(p, i - 1) < k ==> s[k].None?)
  {
    var total := n + |p|;
    if i == 0 {
      FreeAll(Placed(p, total, 0), total);
    } else {
      PlacedFree(p, n, i - 1);
      PositionsIncrease(p, i - 2, i - 1);
      assert Placeable(p, n, i - 1);
      PositionAtLeast(p, i - 1);
      FreeAfter(Placed(p, total, i - 1), total, Position(p, i - 1), p[i - 1].tx.value);
    }
  }

  lemma {:induction false} PositionAtLeast(p: seq<Prefilled>, i: nat)
    requires i < |p|
    ensures Position(p, i) >= i
  {
    if i > 0 {
      PositionAtLeast(p, i - 1);
    }
  }

  /** No more than all the taken slots are taken below any of them. */
  lemma {:induction false} TakenBelow(s: Slots, n: nat)
    requires n <= |s|
    ensures n - |Free(s, n)| <= |s| - |Free(s, |s|)|
    decreases |s| - n
  {
    if n < |s| {
      TakenBelow(s, n + 1);
    }
  }

  // Short ids and slots.

  /** A position as it is kept: in 16 bits. */
  function Wrap16(x: nat): (r: nat)
    ensures r <= x && r < TWO_16 && (x < TWO_16 ==> r == x)
  {
    x % TWO_16
  }

  /** The slots that the short ids are given, in order: the free ones, in 16 bits. */
  function Targets(s: Slots): (r: seq<int>)
    ensures |r| == |Free(s, |s|)| && forall j :: 0 <= j < |r| ==> 0 <= r[j] < |s| && r[j] == Wrap16(Free(s, |s|)[j])
  {
    var free := Free(s, |s|);
    seq(|free|, j requires 0 <= j < |free| => Wrap16(free[j]))
  }

  predicate Distinct(s: seq<nat>) {
    forall i, j :: 0 <= i < j < |s| ==> s[i] != s[j]
  }

  /** The first `i` short ids and the slots they stand for; a later one replaces an equal earlier one. */
  function IdsUpTo(short: seq<nat>, slots: seq<int>, i: nat): map<nat, int>
    requires i <= |short| && |short| <= |slots|
  {
    if i == 0 then map[] else IdsUpTo(short, slots, i - 1)[short[i - 1] := slots[i - 1]]
  }

  lemma {:induction false} IdsKeys(short: seq<nat>, slots: seq<int>, i: nat, x: nat)
    requires i <= |short| && |short| <= |slots|
    ensures x in IdsUpTo(short, slots, i) <==> x in short[..i]
  {
    if i > 0 {
      IdsKeys(short, slots, i - 1, x);
      assert short[..i] == short[..i - 1] + [short[i - 1]];
    }
  }

  lemma {:induction false} IdsSize(short: seq<nat>, slots: seq<int>, i: nat)
    requires i <= |short| && |short| <= |slots|
    ensures |IdsUpTo(short, slots, i)| <= i
  {
    if i > 0 {
      IdsSize(short, slots, i - 1);
      OneMoreKey(IdsUpTo(short, slots, i - 1), short[i - 1], slots[i - 1]);
    }
  }

  lemma OneMoreKey(ids: map<nat, int>, x: nat, k: int)
    ensures |ids[x := k]| == |ids| + (if x in ids then 0 else 1)
  {
    assert ids[x := k].Keys == ids.Keys + {x};
  }

  lemma DistinctAppend(s: seq<nat>, x: nat)
    ensures Distinct(s + [x]) <==> Distinct(s) && x !in s
  {
    var t := s + [x];
    assert forall i :: 0 <= i < |s| ==> t[i] == s[i];
    if Distinct(t) {
      assert forall i, j :: 0 <= i < j < |s| ==> t[i] != t[j];
      assert forall i :: 0 <= i < |s| ==> t[i] != t[|s|];
    }
  }

  lemma IdsNone(short: seq<nat>, slots: seq<int>)
    requires |short| <= |slots|
    ensures IdsUpTo(short, slots, 0) == map[]
  {
  }

  lemma IdsNext(short: seq<nat>, slots: seq<int>, i: nat)
    requires i < |short| && |short| <= |slots|
    ensures IdsUpTo(short, slots, i + 1) == IdsUpTo(short, slots, i)[short[i] := slots[i]]
    ensures |IdsUpTo(short, slots, i + 1)| == |IdsUpTo(short, slots, i)| + (if short[i] in short[..i] then 0 else 1)
  {
    IdsKeys(short, slots, i, short[i]);
    OneMoreKey(IdsUpTo(short, slots, i), short[i], slots[i]);
  }

  /** As many keys as short ids means that these are distinct. */
  lemma {:induction false} NoCollision(short: seq<nat>, slots: seq<int>, i: nat)
    requires i <= |short| && |short| <= |slots|
    ensures |IdsUpTo(short, slots, i)| == i <==> Distinct(short[..i])
  {
    if i > 0 {
      hide Distinct, IdsUpTo;
      NoCollision(short, slots, i - 1);
      IdsNext(short, slots, i - 1);
      IdsSize(short, slots, i - 1);
      DistinctNext(short, i - 1);
    }
  }

  lemma DistinctNext(short: seq<nat>, i: nat)
    requires i < |short|
    ensures Distinct(short[..i + 1]) <==> Distinct(short[..i]) && short[i] !in short[..i]
  {
    hide Distinct;
    DistinctAppend(short[..i], short[i]);
    assert short[..i + 1] == short[..i] + [short[i]];
  }

  /** Distinct short ids each have their own slot. */
  lemma {:induction false} IdAt(short: seq<nat>, slots: seq<int>, i: nat, j: nat)
    requires j < i <= |short| && |short| <= |slots| && Distinct(short)
    ensures var ids := IdsUpTo(short, slots, i); short[j] in ids && ids[short[j]] == slots[j]
  {
    IdsNext(short, slots, i - 1);
    hide IdsUpTo;
    if j < i - 1 {
      IdAt(short, slots, i - 1, j);
    }
  }

  lemma IndexOfId(short: seq<nat>, slots: seq<int>, x: nat) returns (j: nat)
    requires |short| <= |slots| && Distinct(short) && x in IdsUpTo(short, slots, |short|)
    ensures j < |short| && short[j] == x && IdsUpTo(short, slots, |short|)[x] == slots[j]
  {
    hide IdsUpTo, Distinct;
    IdsKeys(short, slots, |short|, x);
    assert short[..|short|] == short;
    j :| 0 <= j < |short| && short[j] == x;
    IdAt(short, slots, |short|, j);
  }

  // Matching transactions with short ids.

  /** The slots that hold a matched transaction. */
  function Filled(s: Slots, have: seq<bool>): set<int>
    requires |s| == |have|
  {
    set k | 0 <= k < |s| && have[k] && s[k].Some?
  }

  /** Every short id stands for one of `n` slots. */
  ghost predicate IdsFit(ids: map<nat, int>, n: nat) {
    forall x :: x in ids ==> 0 <= ids[x] < n
  }

  /** Transaction `t` has a short id of slot `k`. */
  predicate Hits(id: nat -> nat, ids: map<nat, int>, t: Tx, k: int) {
    id(t.hash) in ids && ids[id(t.hash)] == k
  }

  ghost predicate Twice(id: nat -> nat, ids: map<nat, int>, done: seq<Tx>, k: int) {
    exists i, j :: 0 <= i < j < |done| && Hits(id, ids, done[i], k) && Hits(id, ids, done[j], k)
  }

  ghost predicate Never(id: nat -> nat, ids: map<nat, int>, done: seq<Tx>, k: int) {
    forall i :: 0 <= i < |done| ==> !Hits(id, ids, done[i], k)
  }

  /**
   * Among the transactions `done`, of which the first `firm` tolerate no second match, the slot keeps
   * number `i`: it is the first to hit the slot, and any later one that hits it is tolerated because
   * it has the same hash.
   */
  ghost predicate Keeps(id: nat -> nat, ids: map<nat, int>, done: seq<Tx>, firm: nat, k: int, i: int) {
    && 0 <= i < |done| && Hits(id, ids, done[i], k)
    && (forall j :: 0 <= j < i ==> !Hits(id, ids, done[j], k))
    && (forall j :: i < j < |done| && Hits(id, ids, done[j], k) ==> j >= firm && done[j].hash == done[i].hash)
  }

  ghost predicate Kept(id: nat -> nat, ids: map<nat, int>, done: seq<Tx>, firm: nat, k: int) {
    exists i :: Keeps(id, ids, done, firm, k, i)
  }

  /**
   * What a slot holds once the transactions `done` are offered, `have` if one of them hit it: what it
   * held before, if none did; otherwise the one that it keeps, and nothing if there is no such one.
   */
  ghost predicate SlotOk(id: nat -> nat, ids: map<nat, int>, was: Option<Tx>, now: Option<Tx>, have: bool,
                         done: seq<Tx>, firm: nat, k: int)
  {
    if !have then now == was && Never(id, ids, done, k)
    else
      && !Never(id, ids, done, k)
      && (now.Some? ==> exists i :: 0 <= i < |done| && Keeps(id, ids, done, firm, k, i) && now.value == done[i])
      && (now.None? ==> !Kept(id, ids, done, firm, k))
  }

  ghost predicate Matched(id: nat -> nat, ids: map<nat, int>, base: Slots, s: Slots, have: seq<bool>, done: seq<Tx>,
                          firm: nat)
  {
    && |s| == |base| && |have| == |base|
    && forall k :: 0 <= k < |s| ==> SlotOk(id, ids, base[k], s[k], have[k], done, firm, k)
  }

  /** How many of the transactions are firm after one more. */
  function Firm(firm: nat, tolerant: bool): nat { if tolerant then firm else firm + 1 }

  ghost predicate FirmOk(done: seq<Tx>, firm: nat, tolerant: bool) {
    if tolerant then firm <= |done| else firm == |done|
  }

  lemma KeepsMore(id: nat -> nat, ids: map<nat, int>, done: seq<Tx>, firm: nat, tolerant: bool, tx: Tx, k: int, i: int)
    requires FirmOk(done, firm, tolerant) && i < |done|
    ensures Keeps(id, ids, done + [tx], Firm(firm, tolerant), k, i) <==>
      && Keeps(id, ids, done, firm, k, i)
      && (Hits(id, ids, tx, k) ==> tolerant && tx.hash == done[i].hash)
  {
    hide Hits;
    var all := done + [tx];
    assert all[|done|] == tx && forall j :: 0 <= j < |done| ==> all[j] == done[j];
    if Keeps(id, ids, all, Firm(firm, tolerant), k, i) {
      forall j | i < j < |done| && Hits(id, ids, done[j], k) ensures j >= firm && done[j].hash == done[i].hash {
        assert all[j] == done[j];
      }
      assert Keeps(id, ids, done, firm, k, i);
    }
  }

  /** The last transaction is kept exactly when it is the first to hit the slot. */
  lemma KeepsLast(id: nat -> nat, ids: map<nat, int>, done: seq<Tx>, firm: nat, tx: Tx, k: int)
    ensures Keeps(id, ids, done + [tx], firm, k, |done|) <==> Never(id, ids, done, k) && Hits(id, ids, tx, k)
  {
    hide Hits;
    var all := done + [tx];
    assert all[|done|] == tx && forall j :: 0 <= j < |done| ==> all[j] == done[j];
  }

  lemma NeverNext(id: nat -> nat, ids: map<nat, int>, done: seq<Tx>, tx: Tx, k: int)
    ensures Never(id, ids, done + [tx], k) <==> Never(id, ids, done, k) && !Hits(id, ids, tx, k)
  {
    hide Hits;
    var all := done + [tx];
    assert all[|done|] == tx && forall j :: 0 <= j < |done| ==> all[j] == done[j];
  }

  lemma KeptIsFirst(id: nat -> nat, ids: map<nat, int>, done: seq<Tx>, firm: nat, k: int, i: int, j: int)
    requires Keeps(id, ids, done, firm, k, i) && Keeps(id, ids, done, firm, k, j)
    ensures i == j
  {
  }

  /** What a slot holds after one more transaction. */
  function Changed(id: nat -> nat, ids: map<nat, int>, now: Option<Tx>, have: bool, tx: Tx, tolerant: bool, k: int)
    : Option<Tx>
  {
    if !Hits(id, ids, tx, k) then now
    else if !have then Some(tx)
    else if now.Some? && tolerant && now.value.hash == tx.hash then now
    else None
  }

  lemma SlotNext(id: nat -> nat, ids: map<nat, int>, was: Option<Tx>, now: Option<Tx>, have: bool,
                 done: seq<Tx>, firm: nat, tx: Tx, tolerant: bool, k: int)
    requires SlotOk(id, ids, was, now, have, done, firm, k) && FirmOk(done, firm, tolerant)
    ensures SlotOk(id, ids, was, Changed(id, ids, now, have, tx, tolerant, k), have || Hits(id, ids, tx, k),
                   done + [tx], Firm(firm, tolerant), k)
  {
    hide Keeps, Never, Hits, FirmOk, Firm;
    var all, firm' := done + [tx], Firm(firm, tolerant);
    NeverNext(id, ids, done, tx, k);
    KeepsLast(id, ids, done, firm', tx, k);
    forall i | 0 <= i < |done|
      ensures Keeps(id, ids, all, firm', k, i) <==>
        Keeps(id, ids, done, firm, k, i) && (Hits(id, ids, tx, k) ==> tolerant && tx.hash == done[i].hash)
    {
      KeepsMore(id, ids, done, firm, tolerant, tx, k, i);
    }
    if have && now.Some? {
      var i :| 0 <= i < |done| && Keeps(id, ids, done, firm, k, i) && now.value == done[i];
      KeptInRange(id, ids, done, firm, k, i);
      assert all[i] == done[i];
      forall j ensures Keeps(id, ids, all, firm', k, j) ==> j == i {
        if Keeps(id, ids, all, firm', k, j) {
          KeptInRange(id, ids, all, firm', k, j);
          KeptIsFirst(id, ids, done, firm, k, i, j);
        }
      }
    } else {
      forall j ensures Keeps(id, ids, all, firm', k, j) ==> 0 <= j <= |done| {
        if Keeps(id, ids, all, firm', k, j) {
          KeptInRange(id, ids, all, firm', k, j);
        }
      }
    }
  }

  lemma KeptInRange(id: nat -> nat, ids: map<nat, int>, done: seq<Tx>, firm: nat, k: int, i: int)
    requires Keeps(id, ids, done, firm, k, i)
    ensures 0 <= i < |done| && Hits(id, ids, done[i], k)
  {
  }

  /** The slots that hold a match once the transactions are offered. */
  ghost function KeptSlots(id: nat -> nat, ids: map<nat, int>, size: nat, done: seq<Tx>, firm: nat): set<int> {
    set k | 0 <= k < size && Kept(id, ids, done, firm, k)
  }

  lemma FilledIsKept(id: nat -> nat, ids: map<nat, int>, base: Slots, s: Slots, have: seq<bool>, done: seq<Tx>,
                     firm: nat)
    requires Matched(id, ids, base, s, have, done, firm)
    ensures Filled(s, have) == KeptSlots(id, ids, |base|, done, firm)
  {
    hide Keeps, Hits;
    forall k | 0 <= k < |s| ensures have[k] && s[k].Some? <==> Kept(id, ids, done, firm, k) {
      assert SlotOk(id, ids, base[k], s[k], have[k], done, firm, k);
      if !have[k] {
        forall i ensures !Keeps(id, ids, done, firm, k, i) {
          if Keeps(id, ids, done, firm, k, i) {
            KeptInRange(id, ids, done, firm, k, i);
          }
        }
      }
    }
  }

  /**
   * Transactions are offered after `done` until as many slots hold a match as there are short ids; `n`
   * of them are.
   */
  ghost predicate Stops(id: nat -> nat, ids: map<nat, int>, size: nat, done: seq<Tx>, firm: nat, txs: seq<Tx>,
                        tolerant: bool, n: nat)
  {
    && n <= |txs| && (txs != [] ==> n > 0)
    && (n < |txs| ==> Full(id, ids, size, done, firm, txs, tolerant, n))
    && (forall c :: 0 < c < n ==> !Full(id, ids, size, done, firm, txs, tolerant, c))
  }

  ghost predicate Full(id: nat -> nat, ids: map<nat, int>, size: nat, done: seq<Tx>, firm: nat, txs: seq<Tx>,
                       tolerant: bool, n: nat)
    requires n <= |txs|
  {
    |KeptSlots(id, ids, size, done + txs[..n], if tolerant then firm else firm + n)| == |ids|
  }

  /** As many slots with a match as there are short ids means that every short id has its slot hit. */
  lemma AllHave(id: nat -> nat, ids: map<nat, int>, size: nat, done: seq<Tx>, firm: nat)
    requires IdsFit(ids, size) && |KeptSlots(id, ids, size, done, firm)| == |ids|
    ensures forall x :: x in ids ==> !Never(id, ids, done, ids[x])
  {
    hide Keeps;
    var kept := KeptSlots(id, ids, size, done, firm);
    ValuesSize(ids);
    forall k | k in kept ensures k in ids.Values && !Never(id, ids, done, k) {
      var i :| Keeps(id, ids, done, firm, k, i);
      KeptInRange(id, ids, done, firm, k, i);
    }
    forall x | x in ids && Never(id, ids, done, ids[x]) ensures false {
      ProperSubsetSize(kept, ids.Values, ids[x]);
    }
  }

  lemma ValuesSize(ids: map<nat, int>)
    ensures |ids.Values| <= |ids|
    decreases |ids.Keys|
  {
    if ids.Keys != {} {
      var x := AnyOf(ids.Keys);
      var rest := ids - {x};
      assert rest.Keys == ids.Keys - {x};
      ValuesSize(rest);
      forall v | v in ids.Values ensures v in rest.Values + {ids[x]} {
        var y :| y in ids && ids[y] == v;
        assert y != x ==> y in rest && rest[y] == v;
      }
      SubsetSize(ids.Values, rest.Values + {ids[x]});
    }
  }

  lemma FilledAfter(s: Slots, have: seq<bool>, k: int, v: Option<Tx>)
    requires |s| == |have| && 0 <= k < |s|
    ensures |Filled(s[k := v], have[k := true])| ==
      |Filled(s, have)| - (if have[k] && s[k].Some? then 1 else 0) + (if v.Some? then 1 else 0)
  {
    var t, more := s[k := v], have[k := true];
    var was, now := Filled(s, have), Filled(t, more);
    var rest := was - {k};
    forall i | i != k ensures i in now <==> i in rest {
      assert 0 <= i < |s| ==> t[i] == s[i] && more[i] == have[i];
    }
    assert was == if k in was then rest + {k} else rest;
    assert now == if k in now then rest + {k} else rest;
  }

  /** Whether a message is rejected outright. */
  predicate Malformed(m: Message) {
    || m.nullHeader
    || (m.short == [] && m.prefilled == [])
    || |m.short| + |m.prefilled| > MAX_TX_COUNT
    || !AllPlaceable(m.prefilled, |m.short|)
  }

  /** The distance over the taken slots fits in 16 bits, if there is a short id to look for. */
  predicate Skippable(m: Message) {
    m.short == [] || |m.prefilled| <= MAX_UINT16
  }

  /** The slots as a message fills them. */
  function Base(m: Message): (s: Slots)
    ensures |s| == |m.short| + |m.prefilled|
  {
    Placed(m.prefilled, |m.short| + |m.prefilled|, |m.prefilled|)
  }

  lemma BaseFree(m: Message)
    requires !Malformed(m)
    ensures |Free(Base(m), |Base(m)|)| == |m.short|
  {
    hide Placed, Free, Position;
    PlacedFree(m.prefilled, |m.short|, |m.prefilled|);
  }

  /** The short ids of a message and their slots. */
  ghost function Ids(m: Message): map<nat, int>
    requires !Malformed(m)
  {
    BaseFree(m);
    IdsUpTo(m.short, Targets(Base(m)), |m.short|)
  }

  class PartialBlock {
    /** How many keys share the bucket of a key in the hash table that holds a map. */
    const bucketSize: (map<nat, int>, nat) -> nat
    var nullHeader: bool
    var available: Slots
    var mempoolCount: int

    constructor (bucketSize: (map<nat, int>, nat) -> nat)
      ensures this.bucketSize == bucketSize && nullHeader && available == [] && mempoolCount == 0
    {
      this.bucketSize := bucketSize;
      nullHeader, available, mempoolCount := true, [], 0;
    }

    /** Places the prefilled transactions; false if one of them has no place. */
    method Place(m: Message) returns (ok: bool)
      requires |available| == |m.short| + |m.prefilled| && forall k :: 0 <= k < |available| ==> available[k].None?
      modifies this`available
      ensures ok <==> AllPlaceable(m.prefilled, |m.short|)
      ensures ok ==> available == Placed(m.prefilled, |m.short| + |m.prefilled|, |m.prefilled|)
    {
      var p, total := m.prefilled, |available|;
      var last := -1;
      for i := 0 to |p|
        invariant last == Position(p, i - 1) && available == Placed(p, total, i)
        invariant forall j :: 0 <= j < i ==> Placeable(p, |m.short|, j)
      {
        assert Position(p, i) == last + p[i].index + 1;
        if p[i].tx.None? {
          assert !Placeable(p, |m.short|, i);
          return false;
        }
        last := last + p[i].index + 1;
        if last > MAX_UINT16 {
          assert !Placeable(p, |m.short|, i);
          return false;
        }
        if last > |m.short| + i {
          assert !Placeable(p, |m.short|, i);
          return false;
        }
        PositionAtLeast(p, i);
        available := available[last := p[i].tx];
      }
      ok := true;
    }

    ghost predicate Crowded(short: seq<nat>, slots: seq<int>, n: nat)
      requires n <= |short| <= |slots|
    {
      exists i :: 0 <= i < n && bucketSize(IdsUpTo(short, slots, i + 1), short[i]) > 12
    }

    /** Gives each short id, in order, the next free slot. */
    method MapShortIds(short: seq<nat>) returns (ok: bool, ids: map<nat, int>)
      requires |Free(available, |available|)| == |short|
      requires short == [] || |available| - |short| <= MAX_UINT16
      ensures ok <==> !Crowded(short, Targets(available), |short|) && Distinct(short)
      ensures ok ==> ids == IdsUpTo(short, Targets(available), |short|)
    {
      hide Free, IdsUpTo, Distinct, Wrap16, Targets, Crowded;
      ghost var slots := Targets(available);
      ids := map[];
      FreeNone(available);
      IdsNone(short, slots);
      NoneCrowded(short, slots);
      var offset := 0;
      for i := 0 to |short|
        invariant 0 <= offset && i + offset <= |available| && |Free(available, i + offset)| == i
        invariant ids == IdsUpTo(short, slots, i) && !Crowded(short, slots, i)
      {
        offset := SkipTaken(i, offset, |short|);
        SlotFound(available, i + offset);
        IdsNext(short, slots, i);
        ids := ids[short[i] := Wrap16(i + offset)];
        NextCrowded(short, slots, i);
        if bucketSize(ids, short[i]) > 12 {
          StillCrowded(short, slots, i + 1);
          return false, ids;
        }
      }
      NoCollision(short, slots, |short|);
      assert short[..|short|] == short;
      ok := |ids| == |short|;
    }

    lemma NoneCrowded(short: seq<nat>, slots: seq<int>)
      requires |short| <= |slots|
      ensures !Crowded(short, slots, 0)
    {
    }

    lemma NextCrowded(short: seq<nat>, slots: seq<int>, i: nat)
      requires i < |short| <= |slots|
      ensures Crowded(short, slots, i + 1) <==>
        Crowded(short, slots, i) || bucketSize(IdsUpTo(short, slots, i + 1), short[i]) > 12
    {
    }

    lemma StillCrowded(short: seq<nat>, slots: seq<int>, n: nat)
      requires n <= |short| <= |slots| && Crowded(short, slots, n)
      ensures Crowded(short, slots, |short|)
    {
    }

    /** Skips the slots that are taken; the distance is kept in 16 bits. */
    method SkipTaken(i: int, offset: int, n: nat) returns (next: int)
      requires 0 <= offset && 0 <= i < n && i + offset <= |available| && |available| - n <= MAX_UINT16
      requires |Free(available, i + offset)| == i && |Free(available, |available|)| == n
      ensures offset <= next && i + next < |available| && available[i + next].None? && |Free(available, i + next)| == i
    {
      hide Free;
      next := offset;
      while available[i + next].Some?
        invariant offset <= next && i + next < |available| && |Free(available, i + next)| == i
        decreases |available| - next
      {
        FreeNext(available, i + next);
        TakenBelow(available, i + next + 1);
        next := Wrap16(next + 1);
      }
    }

    /**
     * Matches one transaction with the short ids. A second match for a slot empties it, unless
     * `tolerant` and the two transactions have the same hash.
     */
    method Offer(id: nat -> nat, ids: map<nat, int>, tx: Tx, tolerant: bool, have: seq<bool>,
                 ghost base: Slots, ghost done: seq<Tx>, ghost firm: nat)
      returns (have': seq<bool>)
      requires IdsFit(ids, |base|) && FirmOk(done, firm, tolerant)
      requires Matched(id, ids, base, available, have, done, firm)
      requires |available| == |have| == |base| && mempoolCount == |Filled(available, have)|
      modifies this`available, this`mempoolCount
      ensures Matched(id, ids, base, available, have', done + [tx], Firm(firm, tolerant))
      ensures |available| == |have'| == |base| && mempoolCount == |Filled(available, have')|
    {
      hide Filled, Matched;
      MatchedNext(id, ids, base, available, have, done, firm, tx, tolerant);
      have' := have;
      var sid := id(tx.hash);
      if sid in ids {
        var k := ids[sid];
        if !have[k] {
          FilledAfter(available, have, k, Some(tx));
          available := available[k := Some(tx)];
          have' := have[k := true];
          mempoolCount := mempoolCount + 1;
        } else if available[k].Some? && !(tolerant && available[k].value.hash == tx.hash) {
          FilledAfter(available, have, k, None);
          assert have[k := true] == have;
          available := available[k := None];
          mempoolCount := mempoolCount - 1;
        } else {
          assert available[k := available[k]] == available && have[k := true] == have;
        }
      }
    }

    /** Matches a list of transactions, until every short id has one. */
    method OfferAll(id: nat -> nat, ids: map<nat, int>, txs: seq<Tx>, tolerant: bool, have: seq<bool>,
                    ghost base: Slots, ghost done: seq<Tx>, ghost firm: nat)
      returns (have': seq<bool>, ghost n: nat)
      requires IdsFit(ids, |base|) && FirmOk(done, firm, tolerant)
      requires Matched(id, ids, base, available, have, done, firm)
      requires |available| == |have| == |base| && mempoolCount == |Filled(available, have)|
      modifies this`available, this`mempoolCount
      ensures Stops(id, ids, |base|, done, firm, txs, tolerant, n)
      ensures Matched(id, ids, base, available, have', done + txs[..n], if tolerant then firm else firm + n)
      ensures |available| == |have'| == |base| && mempoolCount == |Filled(available, have')|
    {
      hide Matched, Filled, Full, KeptSlots;
      have' := have;
      assert done + txs[..0] == done;
      for i := 0 to |txs|
        invariant |available| == |have'| == |base|
        invariant Matched(id, ids, base, available, have', done + txs[..i], if tolerant then firm else firm + i)
        invariant mempoolCount == |Filled(available, have')|
        invariant forall c :: 0 < c <= i ==> !Full(id, ids, |base|, done, firm, txs, tolerant, c)
      {
        have' := Offer(id, ids, txs[i], tolerant, have', base, done + txs[..i], if tolerant then firm else firm + i);
        assert done + txs[..i] + [txs[i]] == done + txs[..i + 1];
        FullIff(id, ids, base, available, have', done, firm, txs, tolerant, i + 1);
        if mempoolCount == |ids| {
          return have', i + 1;
        }
      }
      n := |txs|;
    }

    /**
     * What the receiver knows of a block after an accepted message. A slot with no match among its
     * own transactions is as the message left it, one with a single match holds that one, and
     * whatever stands in a slot with several is one of them.
     */
    ghost predicate Known(id: nat -> nat, m: Message, own: seq<Tx>)
      requires !Malformed(m)
      reads this
    {
      var base, ids := Base(m), Ids(m);
      && |available| == |base|
      && (forall k :: 0 <= k < |base| && Never(id, ids, own, k) ==> available[k] == base[k])
      && (forall k :: 0 <= k < |base| && !Never(id, ids, own, k) ==>
            if available[k].Some? then available[k].value in own && Hits(id, ids, available[k].value, k)
            else Twice(id, ids, own, k))
      && mempoolCount == |set k | 0 <= k < |base| && !Never(id, ids, own, k) && available[k].Some?|
    }

    /** Places what was sent whole, and fills in what the receiver's own transactions match. */
    method InitData(id: nat -> nat, m: Message, mempool: seq<Tx>, extra: seq<Tx>)
      returns (status: Status, ghost a: nat, ghost b: nat)
      requires nullHeader && available == [] && mempoolCount == 0
      requires Malformed(m) || Skippable(m)
      modifies this
      ensures status == Invalid <==> Malformed(m)
      ensures status == Failed <==> !Malformed(m) && !Accepted(m)
      ensures status == Ok <==> !Malformed(m) && Accepted(m)
      ensures status == Ok ==>
        !nullHeader && Known(id, m, mempool + extra) && Settled(id, m, available, mempool, extra, a, b)
    {
      hide Placed, Free, Position, IdsUpTo, Crowded, Filled, Matched, Distinct, Targets, Never, Hits, Twice, Settled;
      a, b := 0, 0;
      if m.nullHeader || (m.short == [] && m.prefilled == []) {
        status := Invalid;
        return;
      }
      if |m.short| + |m.prefilled| > MAX_TX_COUNT {
        status := Invalid;
        return;
      }
      nullHeader := false;
      available := seq(|m.short| + |m.prefilled|, _ => None);
      var ok := Place(m);
      if !ok {
        status := Invalid;
        return;
      }
      BaseFree(m);
      var ids;
      ok, ids := MapShortIds(m.short);
      if !ok {
        status := Failed;
        return;
      }
      a, b := MatchOwn(id, m, ids, mempool, extra);
      status := Ok;
    }

    /** Offers the receiver's own transactions: the first `a` of the mempool and `b` of the others. */
    method MatchOwn(id: nat -> nat, ghost m: Message, ids: map<nat, int>, mempool: seq<Tx>, extra: seq<Tx>)
      returns (ghost a: nat, ghost b: nat)
      requires !Malformed(m) && Distinct(m.short) && available == Base(m) && ids == Ids(m) && mempoolCount == 0
      modifies this`available, this`mempoolCount
      ensures Known(id, m, mempool + extra) && Settled(id, m, available, mempool, extra, a, b)
    {
      hide Base, Free, IdsUpTo, Filled, Matched, Distinct, Targets, Never, Hits, Twice, AllPlaceable, Stops;
      ghost var base := available;
      BaseFree(m);
      IdsAreSlots(m.short, base);
      var have := seq(|available|, _ => false);
      NothingMatched(id, ids, base, have);
      have, a := OfferAll(id, ids, mempool, false, have, base, [], 0);
      StopsInRange(id, ids, |base|, [], 0, mempool, false, a);
      assert [] + mempool[..a] == mempool[..a];
      have, b := OfferAll(id, ids, extra, true, have, base, mempool[..a], a);
      StopsInRange(id, ids, |base|, mempool[..a], a, extra, true, b);
      MatchedIsKnown(id, ids, base, available, have, mempool, extra, a, b);
    }

    method IsTxAvailable(index: nat) returns (r: bool)
      requires !nullHeader && index < |available|
      ensures r <==> index !in Free(available, |available|)
    {
      r := available[index].Some?;
      if !r {
        FreeComplete(available, |available|, index);
      }
    }

    /** Completes the block with the transactions that were asked for; `check` stands for `CheckBlock`. */
    method FillBlock(missing: seq<Tx>, check: seq<Tx> -> Status) returns (status: Status, block: seq<Tx>)
      requires !nullHeader
      modifies this
      ensures var wanted := |Free(old(available), |old(available)|)|;
        && (|missing| == wanted ==> block == Completed(old(available), missing) && status == check(block))
        && (|missing| != wanted ==> status == Invalid)
        && (|missing| >= wanted ==> nullHeader && available == [])
        && (|missing| < wanted ==> !nullHeader)
    {
      hide Free, Completed;
      block := [];
      var offset := 0;
      ghost var s := available;
      FreeNone(s);
      CompletedNone(s, missing);
      for i := 0 to |available|
        invariant available == s && !nullHeader && offset == |Free(s, i)| <= |missing|
        invariant block == CompletedTo(s, missing, i)
      {
        FreeNext(s, i);
        FreeMonotone(s, i + 1, |s|);
        CompletedNext(s, missing, i);
        if available[i].None? {
          if |missing| <= offset {
            return Invalid, block;
          }
          block := block + [missing[offset]];
          offset := offset + 1;
        } else {
          block := block + [available[i].value];
        }
      }
      nullHeader, available := true, [];
      if |missing| != offset {
        return Invalid, block;
      }
      CompletedAll(s, missing);
      status := check(block);
    }

    /** The short ids are distinct and spread evenly enough. */
    ghost predicate Accepted(m: Message)
      requires !Malformed(m)
    {
      BaseFree(m);
      !Crowded(m.short, Targets(Base(m)), |m.short|) && Distinct(m.short)
    }
  }

  lemma SlotFound(s: Slots, k: nat)
    requires k < |s| && s[k].None?
    ensures var j := |Free(s, k)|; j < |Targets(s)| && Targets(s)[j] == Wrap16(k) && |Free(s, k + 1)| == j + 1
  {
    hide Free, Targets, Wrap16;
    FreeComplete(s, |s|, k);
    FreeNext(s, k);
  }

  lemma MatchedNext(id: nat -> nat, ids: map<nat, int>, base: Slots, s: Slots, have: seq<bool>, done: seq<Tx>,
                    firm: nat, tx: Tx, tolerant: bool)
    requires IdsFit(ids, |base|) && Matched(id, ids, base, s, have, done, firm) && FirmOk(done, firm, tolerant)
    ensures |s| == |have| == |base|
    ensures var sid := id(tx.hash);
      if sid in ids then
        var k := ids[sid];
        Matched(id, ids, base, s[k := Changed(id, ids, s[k], have[k], tx, tolerant, k)], have[k := true],
                done + [tx], Firm(firm, tolerant))
      else
        Matched(id, ids, base, s, have, done + [tx], Firm(firm, tolerant))
  {
    hide SlotOk, FirmOk, Firm;
    forall k | 0 <= k < |s|
      ensures SlotOk(id, ids, base[k], Changed(id, ids, s[k], have[k], tx, tolerant, k),
                     have[k] || Hits(id, ids, tx, k), done + [tx], Firm(firm, tolerant), k)
    {
      SlotNext(id, ids, base[k], s[k], have[k], done, firm, tx, tolerant, k);
    }
  }

  lemma FullIff(id: nat -> nat, ids: map<nat, int>, base: Slots, s: Slots, have: seq<bool>, done: seq<Tx>, firm: nat,
                txs: seq<Tx>, tolerant: bool, n: nat)
    requires n <= |txs|
    requires Matched(id, ids, base, s, have, done + txs[..n], if tolerant then firm else firm + n)
    ensures |s| == |have| && (Full(id, ids, |base|, done, firm, txs, tolerant, n) <==> |Filled(s, have)| == |ids|)
  {
    FilledIsKept(id, ids, base, s, have, done + txs[..n], if tolerant then firm else firm + n);
  }

  lemma StopsInRange(id: nat -> nat, ids: map<nat, int>, size: nat, done: seq<Tx>, firm: nat, txs: seq<Tx>,
                     tolerant: bool, n: nat)
    requires Stops(id, ids, size, done, firm, txs, tolerant, n)
    ensures n <= |txs|
  {
  }

  /**
   * Exactly what stands in each slot. Of the mempool the first `a` transactions are offered and of the
   * others the first `b`, each list up to the first one after which as many slots hold a match as
   * there are short ids, or to its end. A slot that none of these hits is as the message left it; any
   * other holds the first that hits it, unless a later one of the mempool, or a later one with another
   * hash, hits it too: then it is empty.
   */
  ghost predicate Settled(id: nat -> nat, m: Message, s: Slots, mempool: seq<Tx>, extra: seq<Tx>, a: nat, b: nat)
    requires !Malformed(m)
  {
    var base, ids := Base(m), Ids(m);
    && Stops(id, ids, |base|, [], 0, mempool, false, a)
    && Stops(id, ids, |base|, mempool[..a], a, extra, true, b)
    && |s| == |base|
    && forall k :: 0 <= k < |base| ==>
      var offered := mempool[..a] + extra[..b];
      SlotOk(id, ids, base[k], s[k], !Never(id, ids, offered, k), offered, a, k)
  }

  lemma IdsAreSlots(short: seq<nat>, base: Slots)
    requires |Free(base, |base|)| == |short| && Distinct(short)
    ensures IdsFit(IdsUpTo(short, Targets(base), |short|), |base|)
  {
    hide Free, IdsUpTo, Distinct, Targets;
    var ids := IdsUpTo(short, Targets(base), |short|);
    forall x | x in ids ensures 0 <= ids[x] < |base| {
      var j := IndexOfId(short, Targets(base), x);
    }
  }

  lemma NothingMatched(id: nat -> nat, ids: map<nat, int>, base: Slots, have: seq<bool>)
    requires |have| == |base| && forall k :: 0 <= k < |have| ==> !have[k]
    ensures Matched(id, ids, base, base, have, [], 0) && Filled(base, have) == {}
  {
  }

  /** A slot with a match was hit by what it holds, and an empty one that was hit, twice. */
  lemma SlotFacts(id: nat -> nat, ids: map<nat, int>, was: Option<Tx>, now: Option<Tx>, have: bool, done: seq<Tx>,
                  firm: nat, k: int)
    requires SlotOk(id, ids, was, now, have, done, firm, k)
    ensures have == !Never(id, ids, done, k) && (!have ==> now == was)
    ensures have && now.Some? ==> now.value in done && Hits(id, ids, now.value, k)
    ensures have && now.None? ==> Twice(id, ids, done, k)
  {
    if have && now.None? {
      var i := FirstHit(id, ids, done, k);
      assert !Keeps(id, ids, done, firm, k, i);
      var j :| i < j < |done| && Hits(id, ids, done[j], k);
    }
  }

  lemma {:induction false} FirstHit(id: nat -> nat, ids: map<nat, int>, done: seq<Tx>, k: int) returns (i: nat)
    requires !Never(id, ids, done, k)
    ensures i < |done| && Hits(id, ids, done[i], k) && forall j :: 0 <= j < i ==> !Hits(id, ids, done[j], k)
  {
    var n := |done| - 1;
    if Never(id, ids, done[..n], k) {
      i := n;
    } else {
      i := FirstHit(id, ids, done[..n], k);
    }
  }

  /** Whatever is not offered any more hits only slots that were hit before. */
  lemma OfferedHits(id: nat -> nat, ids: map<nat, int>, size: nat, mempool: seq<Tx>, extra: seq<Tx>, a: nat, b: nat,
                    k: int)
    requires IdsFit(ids, size) && Stops(id, ids, size, [], 0, mempool, false, a)
    requires Stops(id, ids, size, mempool[..a], a, extra, true, b)
    ensures Never(id, ids, mempool[..a] + extra[..b], k) <==> Never(id, ids, mempool + extra, k)
  {
    var offered, own := mempool[..a] + extra[..b], mempool + extra;
    if Never(id, ids, own, k) {
      forall i | 0 <= i < |offered| ensures !Hits(id, ids, offered[i], k) {
        assert offered[i] == own[if i < a then i else |mempool| + i - a];
      }
    }
    if !Never(id, ids, own, k) {
      assert [] + mempool[..a] == mempool[..a];
      hide KeptSlots, Hits;
      if a < |mempool| {
        AllHave(id, ids, size, mempool[..a], a);
        SomeHit(id, ids, own, k);
        NeverPrefix(id, ids, mempool[..a], extra[..b], k);
      } else if b < |extra| {
        AllHave(id, ids, size, offered, a);
        SomeHit(id, ids, own, k);
      } else {
        assert offered == own;
      }
    }
  }

  lemma SomeHit(id: nat -> nat, ids: map<nat, int>, own: seq<Tx>, k: int)
    requires !Never(id, ids, own, k)
    ensures exists x :: x in ids && ids[x] == k
  {
  }

  lemma NeverPrefix(id: nat -> nat, ids: map<nat, int>, a: seq<Tx>, b: seq<Tx>, k: int)
    requires !Never(id, ids, a, k)
    ensures !Never(id, ids, a + b, k)
  {
    var i :| 0 <= i < |a| && Hits(id, ids, a[i], k);
    assert (a + b)[i] == a[i];
  }

  lemma TwiceOwn(id: nat -> nat, ids: map<nat, int>, mempool: seq<Tx>, extra: seq<Tx>, a: nat, b: nat, k: int)
    requires a <= |mempool| && b <= |extra| && Twice(id, ids, mempool[..a] + extra[..b], k)
    ensures Twice(id, ids, mempool + extra, k)
  {
    var offered, own := mempool[..a] + extra[..b], mempool + extra;
    var i, j :| 0 <= i < j < |offered| && Hits(id, ids, offered[i], k) && Hits(id, ids, offered[j], k);
    var i', j' := if i < a then i else |mempool| + i - a, if j < a then j else |mempool| + j - a;
    assert own[i'] == offered[i] && own[j'] == offered[j];
  }

  /** What was offered tells about all of the receiver's transactions. */
  lemma MatchedIsKnown(id: nat -> nat, ids: map<nat, int>, base: Slots, s: Slots, have: seq<bool>, mempool: seq<Tx>,
                       extra: seq<Tx>, a: nat, b: nat)
    requires IdsFit(ids, |base|) && Stops(id, ids, |base|, [], 0, mempool, false, a)
    requires Stops(id, ids, |base|, mempool[..a], a, extra, true, b)
    requires Matched(id, ids, base, s, have, mempool[..a] + extra[..b], a)
    ensures var own, offered := mempool + extra, mempool[..a] + extra[..b];
      && |s| == |base| == |have|
      && (forall k :: 0 <= k < |base| ==> have[k] == !Never(id, ids, own, k) == !Never(id, ids, offered, k))
      && (forall k :: 0 <= k < |base| && Never(id, ids, own, k) ==> s[k] == base[k])
      && (forall k :: 0 <= k < |base| && !Never(id, ids, own, k) ==>
            if s[k].Some? then s[k].value in own && Hits(id, ids, s[k].value, k) else Twice(id, ids, own, k))
      && (forall k :: 0 <= k < |base| ==>
            SlotOk(id, ids, base[k], s[k], !Never(id, ids, offered, k), offered, a, k))
      && Filled(s, have) == set k | 0 <= k < |base| && !Never(id, ids, own, k) && s[k].Some?
  {
    hide SlotOk, Never, Twice, Hits, Stops;
    StopsInRange(id, ids, |base|, [], 0, mempool, false, a);
    StopsInRange(id, ids, |base|, mempool[..a], a, extra, true, b);
    var own, offered := mempool + extra, mempool[..a] + extra[..b];
    assert forall t :: t in offered ==> t in own;
    forall k | 0 <= k < |base|
      ensures have[k] == !Never(id, ids, own, k) == !Never(id, ids, offered, k)
      ensures Never(id, ids, own, k) ==> s[k] == base[k]
      ensures !Never(id, ids, own, k) ==>
        if s[k].Some? then s[k].value in own && Hits(id, ids, s[k].value, k) else Twice(id, ids, own, k)
    {
      SlotFacts(id, ids, base[k], s[k], have[k], offered, a, k);
      OfferedHits(id, ids, |base|, mempool, extra, a, b, k);
      if have[k] && s[k].None? {
        TwiceOwn(id, ids, mempool, extra, a, b, k);
      }
    }
  }

  /** A slot that exactly one of the receiver's transactions hits holds that one. */
  lemma HitOnce(pb: PartialBlock, id: nat -> nat, m: Message, own: seq<Tx>, i: nat, k: nat)
    requires !Malformed(m) && pb.Known(id, m, own) && k < |Base(m)| && i < |own| && Hits(id, Ids(m), own[i], k)
    requires forall j :: 0 <= j < |own| && j != i ==> !Hits(id, Ids(m), own[j], k)
    ensures pb.available[k] == Some(own[i])
  {
    hide Placed, Ids, Hits;
    assert !Never(id, Ids(m), own, k);
  }

  // The search for a free slot.

  lemma {:induction false} PlacedStays(p: seq<Prefilled>, total: nat, i: nat, j: nat)
    requires j < i <= |p| && Position(p, j) < total
    ensures Position(p, j) >= 0 && Placed(p, total, i)[Position(p, j)] == p[j].tx
  {
    PositionAtLeast(p, j);
    PositionAtLeast(p, i - 1);
    if j < i - 1 {
      PlacedStays(p, total, i - 1, j);
      PositionsIncrease(p, j, i - 1);
    }
  }

  lemma {:induction false} PositionBelow(p: seq<Prefilled>, i: nat, j: nat)
    requires i <= j < |p|
    ensures Position(p, i) + j - i <= Position(p, j)
  {
    if i < j {
      PositionBelow(p, i, j - 1);
    }
  }

  /**
   * A message that is not rejected and not skippable has every slot taken that a 16-bit distance
   * reaches, so that the search for the slot of its first short id goes round for ever.
   */
  lemma NeverFound(m: Message, offset: nat)
    requires !Malformed(m) && !Skippable(m) && offset <= MAX_UINT16
    ensures |m.prefilled| == TWO_16 && offset < |Base(m)| && Base(m)[offset].Some?
  {
    var p := m.prefilled;
    assert Placeable(p, |m.short|, |p| - 1) && Placeable(p, |m.short|, offset);
    PositionAtLeast(p, |p| - 1);
    PositionAtLeast(p, offset);
    PositionBelow(p, offset, |p| - 1);
    PlacedStays(p, |Base(m)|, |p|, offset);
  }

  // Completing a block.

  /** The first `n` transactions, those in free slots taken from `missing` in order. */
  function CompletedTo(s: Slots, missing: seq<Tx>, n: nat): (r: seq<Tx>)
    requires n <= |s| && |Free(s, n)| <= |missing|
    ensures |r| == n
  {
    if n == 0 then []
    else
      FreeMonotone(s, n - 1, n);
      CompletedTo(s, missing, n - 1) + [if s[n - 1].None? then missing[|Free(s, n - 1)|] else s[n - 1].value]
  }

  function Completed(s: Slots, missing: seq<Tx>): seq<Tx>
    requires |Free(s, |s|)| == |missing|
  {
    CompletedTo(s, missing, |s|)
  }

  lemma CompletedNone(s: Slots, missing: seq<Tx>)
    ensures CompletedTo(s, missing, 0) == []
  {
  }

  lemma CompletedNext(s: Slots, missing: seq<Tx>, n: nat)
    requires n < |s| && |Free(s, n)| <= |missing|
    ensures |Free(s, n + 1)| <= |missing| ==>
      CompletedTo(s, missing, n + 1) ==
      CompletedTo(s, missing, n) + [if s[n].None? then missing[|Free(s, n)|] else s[n].value]
  {
  }

  lemma CompletedAll(s: Slots, missing: seq<Tx>)
    requires |Free(s, |s|)| == |missing|
    ensures CompletedTo(s, missing, |s|) == Completed(s, missing)
  {
  }

  /** Slots that are right where they are filled, and the rest of the block in order, make the block. */
  lemma {:induction false} CompletedIs(s: Slots, missing: seq<Tx>, vtx: seq<Tx>, n: nat)
    requires n <= |s| == |vtx| && |Free(s, n)| <= |missing| && |missing| == |Free(s, |s|)|
    requires forall k :: 0 <= k < |s| && s[k].Some? ==> s[k].value == vtx[k]
    requires forall j :: 0 <= j < |missing| ==> missing[j] == vtx[Free(s, |s|)[j]]
    ensures CompletedTo(s, missing, n) == vtx[..n]
  {
    if n > 0 {
      FreeMonotone(s, n - 1, n);
      CompletedIs(s, missing, vtx, n - 1);
      if s[n - 1].None? {
        FreeComplete(s, |s|, n - 1);
      }
    }
  }

  // The whole exchange.

  /** A message that describes a block: whole transactions in their places, short ids of the others in order. */
  ghost predicate Describes(id: nat -> nat, m: Message, vtx: seq<Tx>) {
    && |m.short| + |m.prefilled| == |vtx| && AllPlaceable(m.prefilled, |m.short|)
    && (forall i :: 0 <= i < |m.prefilled| ==>
          0 <= Position(m.prefilled, i) < |vtx| && m.prefilled[i].tx == Some(vtx[Position(m.prefilled, i)]))
    && (var base := Base(m);
        forall j :: 0 <= j < |m.short| && j < |Free(base, |vtx|)| ==> m.short[j] == id(vtx[Free(base, |vtx|)[j]].hash))
  }

  /** A transaction of the receiver with the short id of one of the block is that one. */
  ghost predicate NoFalseMatch(id: nat -> nat, vtx: seq<Tx>, own: seq<Tx>) {
    forall t, u :: t in own && u in vtx && id(t.hash) == id(u.hash) ==> t == u
  }

  /** None of the receiver's transactions has the short id of one of the block beyond 16 bits. */
  ghost predicate NoneLate(id: nat -> nat, vtx: seq<Tx>, own: seq<Tx>) {
    forall t, k :: t in own && TWO_16 <= k < |vtx| ==> id(t.hash) != id(vtx[k].hash)
  }

  lemma {:induction false} PlacedIsRight(p: seq<Prefilled>, vtx: seq<Tx>, i: nat, k: nat)
    requires i <= |p| && k < |vtx| && Placed(p, |vtx|, i)[k].Some?
    requires forall j :: 0 <= j < |p| ==> 0 <= Position(p, j) < |vtx| && p[j].tx == Some(vtx[Position(p, j)])
    ensures Placed(p, |vtx|, i)[k].value == vtx[k]
  {
    hide Position;
    if i > 0 && k != Position(p, i - 1) {
      PlacedIsRight(p, vtx, i - 1, k);
    }
  }

  /** A transaction hits the slots of the block's transactions that have its short id, in 16 bits. */
  lemma HitSource(id: nat -> nat, m: Message, vtx: seq<Tx>, t: Tx, k: nat) returns (at: nat)
    requires Describes(id, m, vtx) && !Malformed(m) && Distinct(m.short) && Hits(id, Ids(m), t, k)
    ensures at < |vtx| && id(vtx[at].hash) == id(t.hash) && k == Wrap16(at)
  {
    hide Free, Base, AllPlaceable, IdsUpTo, Targets, Wrap16;
    BaseFree(m);
    var j := IndexOfId(m.short, Targets(Base(m)), id(t.hash));
    at := Free(Base(m), |vtx|)[j];
  }

  lemma HitIsRight(id: nat -> nat, m: Message, vtx: seq<Tx>, own: seq<Tx>, t: Tx, k: nat)
    requires Describes(id, m, vtx) && !Malformed(m) && Distinct(m.short) && Hits(id, Ids(m), t, k) && t in own
    requires NoFalseMatch(id, vtx, own) && NoneLate(id, vtx, own)
    ensures k < |vtx| && t == vtx[k]
  {
    hide Describes, AllPlaceable, Ids, Hits, Wrap16, Distinct;
    var at := HitSource(id, m, vtx, t, k);
    assert vtx[at] in vtx;
  }

  lemma BaseIsRight(id: nat -> nat, m: Message, vtx: seq<Tx>)
    requires Describes(id, m, vtx)
    ensures |Base(m)| == |vtx| && forall k :: 0 <= k < |vtx| && Base(m)[k].Some? ==> Base(m)[k].value == vtx[k]
  {
    hide Placed, Position, Free, AllPlaceable;
    forall k | 0 <= k < |vtx| && Base(m)[k].Some? ensures Base(m)[k].value == vtx[k] {
      PlacedIsRight(m.prefilled, vtx, |m.prefilled|, k);
    }
  }

  /** What the receiver filled in is what the block has there. */
  lemma KnownIsRight(pb: PartialBlock, id: nat -> nat, m: Message, vtx: seq<Tx>, own: seq<Tx>)
    requires Describes(id, m, vtx) && !Malformed(m) && Distinct(m.short) && pb.Known(id, m, own)
    requires NoFalseMatch(id, vtx, own) && NoneLate(id, vtx, own)
    ensures |pb.available| == |vtx|
    ensures forall k :: 0 <= k < |vtx| && pb.available[k].Some? ==> pb.available[k].value == vtx[k]
  {
    hide Describes, Base, AllPlaceable, Ids, Hits, Never, Distinct, NoFalseMatch, NoneLate;
    BaseIsRight(id, m, vtx);
    forall k | 0 <= k < |vtx| && pb.available[k].Some? ensures pb.available[k].value == vtx[k] {
      if !Never(id, Ids(m), own, k) {
        HitIsRight(id, m, vtx, own, pb.available[k].value, k);
      }
    }
  }

  /** The message made of a whole block: the first transaction, and short ids of the others. */
  function Compact(id: nat -> nat, vtx: seq<Tx>): Message
    requires vtx != []
  {
    var short := seq<nat>(|vtx| - 1, i requires 0 <= i < |vtx| - 1 => id(vtx[i + 1].hash));
    Message(false, short, [Prefilled(0, Some(vtx[0]))])
  }

  lemma {:induction false} FreeAfterFirst(s: Slots, n: nat)
    requires 0 < n <= |s| && s[0].Some? && forall k :: 1 <= k < |s| ==> s[k].None?
    ensures |Free(s, n)| == n - 1 && forall j :: 0 <= j < n - 1 ==> Free(s, n)[j] == j + 1
  {
    if n > 1 {
      FreeAfterFirst(s, n - 1);
    }
  }

  lemma CompactDescribes(id: nat -> nat, vtx: seq<Tx>)
    requires vtx != []
    ensures Describes(id, Compact(id, vtx), vtx)
  {
    var m := Compact(id, vtx);
    assert Position(m.prefilled, 0) == 0;
    var base := Placed(m.prefilled, |vtx|, 1);
    assert Placed(m.prefilled, |vtx|, 0) == seq(|vtx|, _ => None);
    FreeAfterFirst(base, |vtx|);
  }

  /** The transactions of a block that stand in the free slots. */
  method Requested(s: Slots, vtx: seq<Tx>) returns (missing: seq<Tx>)
    requires |s| == |vtx|
    ensures |missing| == |Free(s, |s|)| && forall j :: 0 <= j < |missing| ==> missing[j] == vtx[Free(s, |s|)[j]]
  {
    missing := [];
    for i := 0 to |s|
      invariant |missing| == |Free(s, i)| && forall j :: 0 <= j < |missing| ==> missing[j] == vtx[Free(s, i)[j]]
    {
      if s[i].None? {
        missing := missing + [vtx[i]];
      }
    }
  }

  /**
   * From block to block: whenever the receiver accepts the message, it ends up with the very same
   * transactions, provided that none of its own has the short id of another one of the block, nor
   * that of one whose position takes more than 16 bits.
   */
  method Relay(id: nat -> nat, bucketSize: (map<nat, int>, nat) -> nat, m: Message, vtx: seq<Tx>,
               mempool: seq<Tx>, extra: seq<Tx>, check: seq<Tx> -> Status)
    returns (status: Status, block: seq<Tx>)
    requires !m.nullHeader && vtx != [] && Describes(id, m, vtx) && (Malformed(m) || Skippable(m))
    ensures |vtx| > MAX_TX_COUNT ==> status == Invalid && block == []
    ensures |vtx| <= MAX_TX_COUNT && NoFalseMatch(id, vtx, mempool + extra) && NoneLate(id, vtx, mempool + extra) ==>
      && (status != Failed ==> block == vtx && status == check(vtx))
      && (Distinct(m.short) && (forall ids, x :: bucketSize(ids, x) <= 12) ==> block == vtx)
  {
    hide Free, Placed, Position, Describes, NoFalseMatch, NoneLate, Ids, AllPlaceable;
    block := [];
    var pb := new PartialBlock(bucketSize);
    DescribesFits(id, m, vtx);
    ghost var a, b;
    status, a, b := pb.InitData(id, m, mempool, extra);
    if status != Ok {
      return;
    }
    if NoFalseMatch(id, vtx, mempool + extra) && NoneLate(id, vtx, mempool + extra) {
      KnownIsRight(pb, id, m, vtx, mempool + extra);
    }
    ghost var s := pb.available;
    var missing := Requested(pb.available, vtx);
    if forall k :: 0 <= k < |s| && s[k].Some? ==> s[k].value == vtx[k] {
      CompletedIs(s, missing, vtx, |s|);
    }
    assert vtx[..|s|] == vtx;
    status, block := pb.FillBlock(missing, check);
  }

  /**
   * Up to 65536 transactions no position is late. In any larger block one is, and the receiver that
   * has only that transaction puts it first.
   */
  lemma NoneLateBelow(id: nat -> nat, vtx: seq<Tx>, own: seq<Tx>)
    requires |vtx| <= TWO_16
    ensures NoneLate(id, vtx, own)
  {
  }

  method RelayLate(id: nat -> nat, bucketSize: (map<nat, int>, nat) -> nat, m: Message, vtx: seq<Tx>,
                   check: seq<Tx> -> Status)
    returns (status: Status, block: seq<Tx>)
    requires TWO_16 < |vtx| <= MAX_TX_COUNT && Describes(id, m, vtx) && !m.nullHeader && Skippable(m)
    requires Distinct(m.short) && forall ids, x :: bucketSize(ids, x) <= 12
    ensures |block| == |vtx| && block[0] == vtx[TWO_16]
  {
    hide Free, Placed, Position, Describes, Ids, AllPlaceable, Distinct, Targets, Completed;
    var pb := new PartialBlock(bucketSize);
    DescribesFits(id, m, vtx);
    var own := [vtx[TWO_16]];
    assert own + [] == own;
    ghost var a, b;
    status, a, b := pb.InitData(id, m, own, []);
    LateHits(id, m, vtx);
    HitOnce(pb, id, m, own, 0, 0);
    var missing := Requested(pb.available, vtx);
    ghost var s := pb.available;
    status, block := pb.FillBlock(missing, check);
    CompletedFirst(s, missing);
  }

  /** The short id of the transaction after 65536 others is given slot 0. */
  lemma LateHits(id: nat -> nat, m: Message, vtx: seq<Tx>)
    requires TWO_16 < |vtx| && Describes(id, m, vtx) && !Malformed(m) && Distinct(m.short)
    ensures Hits(id, Ids(m), vtx[TWO_16], 0)
  {
    var base := Base(m);
    hide Free, Base, AllPlaceable, IdsUpTo, Distinct, Targets, Wrap16;
    LateIsFree(m, TWO_16);
    BaseFree(m);
    SlotFound(base, TWO_16);
    WrapsToZero();
    FreeComplete(base, |base|, TWO_16);
    IdAt(m.short, Targets(base), |m.short|, |Free(base, TWO_16)|);
  }

  lemma WrapsToZero()
    ensures Wrap16(TWO_16) == 0
  {
  }

  /** Nothing is sent whole beyond 16 bits. */
  lemma LateIsFree(m: Message, k: nat)
    requires !Malformed(m) && TWO_16 <= k < |Base(m)|
    ensures Base(m)[k].None?
  {
    var p := m.prefilled;
    PlacedFree(p, |m.short|, |p|);
    if p != [] {
      assert Placeable(p, |m.short|, |p| - 1);
    }
  }

  lemma {:induction false} CompletedAt(s: Slots, missing: seq<Tx>, n: nat, k: nat)
    requires k < n <= |s| && |Free(s, n)| <= |missing| && s[k].Some?
    ensures CompletedTo(s, missing, n)[k] == s[k].value
  {
    if k < n - 1 {
      FreeMonotone(s, n - 1, n);
      CompletedAt(s, missing, n - 1, k);
    }
  }

  lemma CompletedFirst(s: Slots, missing: seq<Tx>)
    requires |Free(s, |s|)| == |missing| && s != [] && s[0].Some?
    ensures |Completed(s, missing)| == |s| && Completed(s, missing)[0] == s[0].value
  {
    CompletedAt(s, missing, |s|, 0);
  }

  lemma DescribesFits(id: nat -> nat, m: Message, vtx: seq<Tx>)
    requires Describes(id, m, vtx)
    ensures |m.short| + |m.prefilled| == |vtx| && AllPlaceable(m.prefilled, |m.short|)
  {
  }
}
