/**
 * The value-level part of the address manager: entries, bucket tables as maps
 * of occupied slots, the consistency condition over all of its indexes, and
 * one lemma per elementary change that the operations are made of.
 */
module AddrManModel {
  import opened Common

  const NEW_BUCKET_COUNT: int := 1024
  const TRIED_BUCKET_COUNT: int := 256
  const BUCKET_SIZE: int := 64
  const NEW_BUCKETS_PER_ADDRESS: int := 8
  const HORIZON_DAYS: int := 30
  const RETRIES: int := 3
  const MAX_FAILURES: int := 10
  const MIN_FAIL_DAYS: int := 7

  /** A 16-byte network address, read as a number. */
  type NetAddr = nat
  type Key = nat

  datatype Service = Service(ip: NetAddr, port: nat)

  datatype Address = Address(service: Service, services: bv64, time: int)

  datatype Info = Info(
    address: Address,
    source: NetAddr,
    lastTry: int,
    lastCountAttempt: int,
    lastSuccess: int,
    attempts: int,
    refCount: int,
    inTried: bool,
    randomPos: int)
  {
    function Ip(): NetAddr { address.service.ip }
  }

  datatype Slot = Slot(bucket: int, pos: int)

  type Table = map<Slot, int>

  /** The keyed hashes and the address classification, all uninterpreted. */
  datatype Hashes = Hashes(
    triedBucket: (Key, Service) -> nat,
    newBucket: (Key, NetAddr, NetAddr) -> nat,
    position: (Key, bool, int, Service) -> nat,
    isRoutable: NetAddr -> bool,
    isValid: NetAddr -> bool)

  function TriedSlot(h: Hashes, key: Key, service: Service): (s: Slot)
    ensures InTable(s, TRIED_BUCKET_COUNT)
  {
    var bucket := h.triedBucket(key, service) % TRIED_BUCKET_COUNT;
    Slot(bucket, h.position(key, false, bucket, service) % BUCKET_SIZE)
  }

  function NewPos(h: Hashes, key: Key, service: Service, bucket: int): (p: int)
    ensures 0 <= p < BUCKET_SIZE
  {
    h.position(key, true, bucket, service) % BUCKET_SIZE
  }

  function NewSlot(h: Hashes, key: Key, service: Service, source: NetAddr): (s: Slot)
    ensures InTable(s, NEW_BUCKET_COUNT) && s.pos == NewPos(h, key, service, s.bucket)
  {
    var bucket := h.newBucket(key, service.ip, source) % NEW_BUCKET_COUNT;
    Slot(bucket, NewPos(h, key, service, bucket))
  }

  predicate InTable(s: Slot, buckets: int) {
    0 <= s.bucket < buckets && 0 <= s.pos < BUCKET_SIZE
  }

  /** Whether the statistics of an entry are bad enough to drop it. */
  predicate IsTerrible(i: Info, now: int) {
    if i.lastTry != 0 && i.lastTry >= now - 60 then false
    else
      || i.address.time > now + 10 * 60
      || i.address.time == 0
      || now - i.address.time > HORIZON_DAYS * 24 * 60 * 60
      || (i.lastSuccess == 0 && i.attempts >= RETRIES)
      || (now - i.lastSuccess > MIN_FAIL_DAYS * 24 * 60 * 60 && i.attempts >= MAX_FAILURES)
  }

  /** All indexes of the manager as one value. */
  datatype Book = Book(
    idCount: int,
    infos: map<int, Info>,
    addrs: map<NetAddr, int>,
    random: seq<int>,
    newTable: Table,
    triedTable: Table,
    nNew: int,
    nTried: int)

  const EMPTY: Book := Book(0, map[], map[], [], map[], map[], 0, 0)

  function SlotsOf(t: Table, id: int): set<Slot> {
    set s | s in t && t[s] == id
  }

  /** A table without the occurrences of `id` in its first `n` buckets. */
  function Without(t: Table, id: int, n: int): Table {
    map s | s in t && !(t[s] == id && s.bucket < n) :: t[s]
  }

  function NewIds(infos: map<int, Info>): set<int> {
    set id | id in infos && !infos[id].inTried
  }

  function TriedIds(infos: map<int, Info>): set<int> {
    set id | id in infos && infos[id].inTried
  }

  // The consistency condition, index by index.

  ghost predicate RandomOk(infos: map<int, Info>, random: seq<int>) {
    && |random| == |infos.Keys|
    && (forall k :: 0 <= k < |random| ==> random[k] in infos && infos[random[k]].randomPos == k)
    && (forall id :: id in infos ==>
          0 <= infos[id].randomPos < |random| && random[infos[id].randomPos] == id)
  }

  ghost predicate AddrsOk(idCount: int, infos: map<int, Info>, addrs: map<NetAddr, int>) {
    && (forall id :: id in infos ==>
          0 <= id < idCount && infos[id].Ip() in addrs && addrs[infos[id].Ip()] == id)
    && (forall a :: a in addrs ==> addrs[a] in infos && infos[addrs[a]].Ip() == a)
  }

  ghost predicate NewOk(h: Hashes, key: Key, infos: map<int, Info>, table: Table) {
    forall s :: s in table ==>
      && InTable(s, NEW_BUCKET_COUNT)
      && table[s] in infos
      && !infos[table[s]].inTried
      && s.pos == NewPos(h, key, infos[table[s]].address.service, s.bucket)
  }

  ghost predicate TriedOk(h: Hashes, key: Key, infos: map<int, Info>, table: Table) {
    && (forall s :: s in table ==>
          && table[s] in infos
          && infos[table[s]].inTried
          && s == TriedSlot(h, key, infos[table[s]].address.service))
    && (forall id :: id in infos && infos[id].inTried ==>
          && TriedSlot(h, key, infos[id].address.service) in table
          && table[TriedSlot(h, key, infos[id].address.service)] == id)
  }

  ghost predicate RefsOk(infos: map<int, Info>, table: Table, pending: set<int>) {
    forall id :: id in infos ==>
      && infos[id].refCount == |SlotsOf(table, id)|
      && (!infos[id].inTried && id !in pending ==> 1 <= infos[id].refCount <= NEW_BUCKETS_PER_ADDRESS)
  }

  ghost predicate CountsOk(infos: map<int, Info>, nNew: int, nTried: int, skew: int) {
    nNew == |NewIds(infos)| + skew && nTried == |TriedIds(infos)|
  }

  /**
   * The consistency condition with two escape hatches for the middle of an
   * operation: entries in `pending` are outside tried and may have no
   * reference yet, and `nNew` may be off by `skew`.
   */
  ghost predicate Consistent(h: Hashes, key: Key, b: Book, pending: set<int>, skew: int) {
    && RandomOk(b.infos, b.random)
    && AddrsOk(b.idCount, b.infos, b.addrs)
    && NewOk(h, key, b.infos, b.newTable)
    && TriedOk(h, key, b.infos, b.triedTable)
    && RefsOk(b.infos, b.newTable, pending)
    && CountsOk(b.infos, b.nNew, b.nTried, skew)
  }

  /** The time stamps that the debug check demands. */
  ghost predicate TimesOk(infos: map<int, Info>) {
    forall id :: id in infos ==>
      && infos[id].lastTry >= 0
      && infos[id].lastSuccess >= 0
      && (infos[id].inTried ==> infos[id].lastSuccess != 0)
  }

  /** Every pending tried-table collision that is still live has an occupied slot. */
  ghost predicate CollisionsOk(h: Hashes, key: Key, b: Book, collisions: set<int>) {
    forall id :: id in collisions ==>
      0 <= id < b.idCount && (id in b.infos ==> TriedSlot(h, key, b.infos[id].address.service) in b.triedTable)
  }

  /** Entries differ at most in their position in the random order. */
  predicate SameUpToPos(i: Info, j: Info) {
    i.(randomPos := 0) == j.(randomPos := 0)
  }

  /** The same entries up to their positions in the random order. */
  ghost predicate SameEntries(infos: map<int, Info>, was: map<int, Info>) {
    infos.Keys == was.Keys && forall i :: i in infos ==> SameUpToPos(infos[i], was[i])
  }

  lemma SameEntriesReflexive(infos: map<int, Info>)
    ensures SameEntries(infos, infos)
  {
  }

  lemma SameEntriesTransitive(infos: map<int, Info>, mid: map<int, Info>, was: map<int, Info>)
    requires SameEntries(infos, mid) && SameEntries(mid, was)
    ensures SameEntries(infos, was)
  {
    forall i | i in infos ensures SameUpToPos(infos[i], was[i]) {
      assert SameUpToPos(infos[i], mid[i]) && SameUpToPos(mid[i], was[i]);
    }
  }

  lemma SameEntriesAddress(infos: map<int, Info>, was: map<int, Info>, i: int)
    requires SameEntries(infos, was)
    ensures i in infos <==> i in was
    ensures i in infos ==> infos[i].address == was[i].address
  {
    assert i in infos ==> SameUpToPos(infos[i], was[i]);
  }

  lemma SamePlace(infos: map<int, Info>, random: seq<int>, id: int, info: Info)
    requires RandomOk(infos, random)
    requires id in infos && infos[id].randomPos == info.randomPos
    ensures RandomOk(infos[id := info], random)
  {
    assert infos[id := info].Keys == infos.Keys;
  }

  /** Replacing one entry by one of the same address and random position. */
  lemma SameAddress(idCount: int, infos: map<int, Info>, random: seq<int>, addrs: map<NetAddr, int>,
                    id: int, info: Info)
    requires RandomOk(infos, random) && AddrsOk(idCount, infos, addrs)
    requires id in infos
    requires infos[id].address.service == info.address.service && infos[id].randomPos == info.randomPos
    ensures RandomOk(infos[id := info], random) && AddrsOk(idCount, infos[id := info], addrs)
  {
    SamePlace(infos, random, id, info);
    assert forall i :: i in infos ==> infos[id := info][i].Ip() == infos[i].Ip();
  }

  /** Entries differ at most in where they are filed. */
  predicate SameStats(i: Info, j: Info) {
    i.(refCount := 0, inTried := false, randomPos := 0) == j.(refCount := 0, inTried := false, randomPos := 0)
  }

  /** What clearing slot `s` of the new table leaves of the entries `was`. */
  ghost predicate Cleared(was: map<int, Info>, table: Table, s: Slot, infos: map<int, Info>) {
    if s in table && table[s] in was then
      var v := table[s];
      && infos.Keys == was.Keys - (if was[v].refCount == 1 then {v} else {})
      && (forall i :: i in infos && i != v ==> SameUpToPos(infos[i], was[i]))
      && (v in infos ==> SameUpToPos(infos[v], was[v].(refCount := was[v].refCount - 1)))
    else
      infos == was
  }

  /** Entries that are not in the slot are kept. */
  lemma ClearedPending(was: map<int, Info>, table: Table, s: Slot, infos: map<int, Info>, pending: set<int>)
    requires Cleared(was, table, s, infos) && (s in table ==> table[s] !in pending)
    ensures forall i :: i in pending && i in was ==> i in infos && SameUpToPos(infos[i], was[i])
  {
  }

  /** The entry, if any, whose last reference is slot `s` of the new table. */
  ghost function Displaced(was: map<int, Info>, table: Table, s: Slot): set<int> {
    if s in table && table[s] in was && was[table[s]].refCount == 1 then {table[s]} else {}
  }

  /**
   * Entry `id` has moved to its tried slot. The former occupant, if any, is back
   * in the new table at the slot of its own source, and the entry it displaced
   * there is the only one that can be gone; no statistics changed.
   */
  ghost predicate MovedToTried(h: Hashes, key: Key, b: Book, id: int, c: Book)
    requires id in b.infos
  {
    var s := TriedSlot(h, key, b.infos[id].address.service);
    var cleared := Without(b.newTable, id, NEW_BUCKET_COUNT);
    var evicted := if s in b.triedTable then {b.triedTable[s]} else {};
    && c.idCount == b.idCount
    && c.triedTable == b.triedTable[s := id]
    && (forall i :: i in c.infos ==>
          && i in b.infos && SameStats(c.infos[i], b.infos[i])
          && c.infos[i].inTried == (i == id || (b.infos[i].inTried && i !in evicted)))
    && (if s in b.triedTable && b.triedTable[s] in b.infos then
          var e := b.infos[b.triedTable[s]];
          var target := NewSlot(h, key, e.address.service, e.source);
          && c.newTable == cleared[target := b.triedTable[s]]
          && c.infos.Keys == b.infos.Keys - Displaced(b.infos, cleared, target)
        else
          c.newTable == cleared && c.infos.Keys == b.infos.Keys)
  }

  /** The parts of the move, put together, when the tried slot was taken. */
  lemma MoveEvicting(h: Hashes, key: Key, b: Book, id: int, e: int, mid: map<int, Info>, c: Book)
    requires id in b.infos && !b.infos[id].inTried && e in b.infos && b.infos[e].inTried && id in mid
    requires var s := TriedSlot(h, key, b.infos[id].address.service);
      s in b.triedTable && b.triedTable[s] == e && c.triedTable == (b.triedTable - {s})[s := id]
    requires
      var left := b.infos[id := b.infos[id].(refCount := 0)];
      var left' := left[e := left[e].(inTried := false)];
      var cleared := Without(b.newTable, id, NEW_BUCKET_COUNT);
      var target := NewSlot(h, key, b.infos[e].address.service, b.infos[e].source);
      && mid.Keys == left'.Keys - Displaced(left', cleared, target)
      && (forall i :: i in mid ==> SameStats(mid[i], left'[i]) && mid[i].inTried == left'[i].inTried)
      && c.newTable == cleared[target := e]
    requires c.infos == mid[id := mid[id].(inTried := true)] && c.idCount == b.idCount
    ensures MovedToTried(h, key, b, id, c)
  {
    var left := b.infos[id := b.infos[id].(refCount := 0)];
    var left' := left[e := left[e].(inTried := false)];
    assert left'.Keys == b.infos.Keys;
    assert c.infos.Keys == mid.Keys;
    forall i | i in c.infos
      ensures i in b.infos && SameStats(c.infos[i], b.infos[i])
      ensures c.infos[i].inTried == (i == id || (b.infos[i].inTried && i != e))
    {
      assert SameStats(mid[i], left'[i]) && SameStats(left'[i], b.infos[i]);
    }
  }

  /** The parts of the move, put together, when the tried slot was free. */
  lemma MoveFree(h: Hashes, key: Key, b: Book, id: int, c: Book)
    requires id in b.infos
    requires var s := TriedSlot(h, key, b.infos[id].address.service);
      s !in b.triedTable && c.triedTable == b.triedTable[s := id]
    requires c.newTable == Without(b.newTable, id, NEW_BUCKET_COUNT) && c.idCount == b.idCount
    requires c.infos == b.infos[id := b.infos[id].(refCount := 0, inTried := true)]
    ensures MovedToTried(h, key, b, id, c)
  {
    assert c.infos.Keys == b.infos.Keys;
  }

  /** Clearing a slot and then giving `e` `n` references keeps all statistics. */
  lemma ClearedThenReferenced(was: map<int, Info>, table: Table, s: Slot, infos: map<int, Info>, e: int, n: int)
    requires Cleared(was, table, s, infos) && e in infos
    ensures var after := infos[e := infos[e].(refCount := n)];
      && after.Keys == was.Keys - Displaced(was, table, s)
      && forall i :: i in after ==> SameStats(after[i], was[i]) && after[i].inTried == was[i].inTried
  {
    var after := infos[e := infos[e].(refCount := n)];
    assert after.Keys == infos.Keys;
    forall i | i in after ensures SameStats(after[i], was[i]) && after[i].inTried == was[i].inTried {
      if s in table && table[s] in was && i == table[s] {
        assert SameUpToPos(infos[i], was[i].(refCount := was[i].refCount - 1));
      } else if s in table && table[s] in was {
        assert SameUpToPos(infos[i], was[i]);
      }
    }
  }

  /** Replacing one entry by one with the same standing in the two tables. */
  lemma SameTables(h: Hashes, key: Key, infos: map<int, Info>, newTable: Table, triedTable: Table,
                   id: int, info: Info)
    requires NewOk(h, key, infos, newTable) && TriedOk(h, key, infos, triedTable)
    requires id in infos
    requires infos[id].address.service == info.address.service && infos[id].inTried == info.inTried
    ensures NewOk(h, key, infos[id := info], newTable) && TriedOk(h, key, infos[id := info], triedTable)
    ensures NewIds(infos[id := info]) == NewIds(infos)
    ensures TriedIds(infos[id := info]) == TriedIds(infos)
  {
  }

  // Consequences of consistency.

  lemma PlaceOf(h: Hashes, key: Key, b: Book, pending: set<int>, skew: int, id: int)
    requires Consistent(h, key, b, pending, skew) && id in b.infos
    ensures 0 <= b.infos[id].randomPos < |b.random| && b.random[b.infos[id].randomPos] == id
  {
  }

  lemma EntryAt(h: Hashes, key: Key, b: Book, pending: set<int>, skew: int, p: int)
    requires Consistent(h, key, b, pending, skew) && 0 <= p < |b.random|
    ensures b.random[p] in b.infos && b.infos[b.random[p]].randomPos == p
  {
  }

  lemma SlotOccupant(h: Hashes, key: Key, b: Book, pending: set<int>, skew: int, s: Slot)
    requires Consistent(h, key, b, pending, skew)
    ensures s in b.newTable ==>
      && b.newTable[s] in b.infos && !b.infos[b.newTable[s]].inTried
      && b.infos[b.newTable[s]].refCount > 0
      && s.pos == NewPos(h, key, b.infos[b.newTable[s]].address.service, s.bucket)
    ensures s in b.triedTable ==>
      && b.triedTable[s] in b.infos && b.infos[b.triedTable[s]].inTried
      && s == TriedSlot(h, key, b.infos[b.triedTable[s]].address.service)
  {
    if s in b.newTable {
      assert s in SlotsOf(b.newTable, b.newTable[s]);
    }
  }

  lemma SlotRange(h: Hashes, key: Key, b: Book, pending: set<int>, skew: int, id: int)
    requires Consistent(h, key, b, pending, skew)
    requires id in b.infos && !b.infos[id].inTried && id !in pending
    ensures 1 <= b.infos[id].refCount <= NEW_BUCKETS_PER_ADDRESS
  {
  }

  lemma AllForgotten(h: Hashes, key: Key, b: Book, pending: set<int>, skew: int, id: int, table: Table)
    requires Consistent(h, key, b, pending, skew) && id in b.infos
    requires b.newTable == Without(table, id, NEW_BUCKET_COUNT)
    requires forall s :: s in table ==> s.bucket < NEW_BUCKET_COUNT
    ensures b.infos[id].refCount == 0
  {
    assert SlotsOf(b.newTable, id) == {};
  }

  lemma IdsAreNatural(h: Hashes, key: Key, b: Book, pending: set<int>, skew: int, id: int)
    requires Consistent(h, key, b, pending, skew) && id in b.infos
    ensures 0 <= id < b.idCount
  {
  }

  lemma Recount(h: Hashes, key: Key, b: Book, pending: set<int>, skew: int, delta: int)
    requires Consistent(h, key, b, pending, skew)
    ensures Consistent(h, key, b.(nNew := b.nNew + delta), pending, skew + delta)
  {
  }

  lemma EntriesAreIndexed(h: Hashes, key: Key, b: Book, pending: set<int>, skew: int)
    requires Consistent(h, key, b, pending, skew)
    ensures AddrsOk(b.idCount, b.infos, b.addrs)
  {
  }

  lemma RefsNonNegative(h: Hashes, key: Key, b: Book, pending: set<int>, skew: int, id: int)
    requires Consistent(h, key, b, pending, skew) && id in b.infos
    ensures b.infos[id].refCount >= 0
  {
  }

  lemma OrderIsComplete(h: Hashes, key: Key, b: Book)
    requires Consistent(h, key, b, {}, 0)
    ensures |b.random| == |b.infos|
  {
    assert |b.infos| == |b.infos.Keys|;
  }

  /** Entries that have found their references stop being pending. */
  lemma Settle(h: Hashes, key: Key, b: Book, pending: set<int>, pending': set<int>, skew: int)
    requires Consistent(h, key, b, pending, skew)
    requires forall id :: id in pending && id !in pending' && id in b.infos && !b.infos[id].inTried ==>
      1 <= b.infos[id].refCount <= NEW_BUCKETS_PER_ADDRESS
    ensures Consistent(h, key, b, pending', skew)
  {
  }

  // Elementary changes.

  function Replaced(b: Book, id: int, info: Info): Book {
    b.(infos := b.infos[id := info])
  }

  /** A fresh entry at the end of the random order. */
  function Created(b: Book, info: Info): Book {
    b.(idCount := b.idCount + 1, infos := b.infos[b.idCount := info],
       addrs := b.addrs[info.Ip() := b.idCount], random := b.random + [b.idCount])
  }

  /** Without an unreferenced entry that stands last in the random order. */
  function Removed(b: Book, id: int): Book
    requires id in b.infos && b.random != []
  {
    b.(infos := b.infos - {id}, addrs := b.addrs - {b.infos[id].Ip()},
       random := b.random[..|b.random| - 1], nNew := b.nNew - 1)
  }

  /** One slot of the new table cleared. */
  function Unreferenced(b: Book, s: Slot): Book
    requires s in b.newTable && b.newTable[s] in b.infos
  {
    var id := b.newTable[s];
    b.(infos := b.infos[id := b.infos[id].(refCount := b.infos[id].refCount - 1)],
       newTable := b.newTable - {s})
  }

  /** One slot of the new table filled. */
  function Referenced(b: Book, id: int, s: Slot): Book
    requires id in b.infos
  {
    b.(infos := b.infos[id := b.infos[id].(refCount := b.infos[id].refCount + 1)],
       newTable := b.newTable[s := id])
  }

  /** One slot of the tried table cleared. */
  function Untried(b: Book, s: Slot): Book
    requires s in b.triedTable && b.triedTable[s] in b.infos
  {
    var id := b.triedTable[s];
    b.(infos := b.infos[id := b.infos[id].(inTried := false)],
       triedTable := b.triedTable - {s}, nTried := b.nTried - 1)
  }

  /** One slot of the tried table filled. */
  function Tried(b: Book, id: int, s: Slot): Book
    requires id in b.infos
  {
    b.(infos := b.infos[id := b.infos[id].(inTried := true)],
       triedTable := b.triedTable[s := id], nTried := b.nTried + 1)
  }

  /** Only statistics of one entry change. */
  lemma StatsChange(h: Hashes, key: Key, b: Book, pending: set<int>, skew: int, id: int, info: Info)
    requires Consistent(h, key, b, pending, skew)
    requires id in b.infos
    requires var was := b.infos[id];
      && was.address.service == info.address.service && was.randomPos == info.randomPos
      && was.refCount == info.refCount && was.inTried == info.inTried
    ensures Consistent(h, key, Replaced(b, id, info), pending, skew)
  {
    hide RandomOk, AddrsOk, NewOk, TriedOk, NewIds, TriedIds;
    SameAddress(b.idCount, b.infos, b.random, b.addrs, id, info);
    SameTables(h, key, b.infos, b.newTable, b.triedTable, id, info);
  }

  /** Exchange of two places of the random order. */
  function Swapped(b: Book, p: int, q: int): Book
    requires 0 <= p < |b.random| && 0 <= q < |b.random|
    requires b.random[p] in b.infos && b.random[q] in b.infos
  {
    var i, j := b.random[p], b.random[q];
    b.(infos := b.infos[i := b.infos[i].(randomPos := q)][j := b.infos[j].(randomPos := p)],
       random := b.random[p := j][q := i])
  }

  lemma SwapRandomOk(b: Book, p: int, q: int)
    requires RandomOk(b.infos, b.random)
    requires 0 <= p < |b.random| && 0 <= q < |b.random| && p != q
    ensures b.random[p] in b.infos && b.random[q] in b.infos && b.random[p] != b.random[q]
    ensures RandomOk(Swapped(b, p, q).infos, Swapped(b, p, q).random)
  {
    assert b.infos[b.random[p]].randomPos == p && b.infos[b.random[q]].randomPos == q;
    assert Swapped(b, p, q).infos.Keys == b.infos.Keys;
  }

  /** Two entry maps that agree up to random positions pass the same position-free tests. */
  lemma SameUpToPositions(h: Hashes, key: Key, b: Book, infos: map<int, Info>, pending: set<int>, skew: int)
    requires NewOk(h, key, b.infos, b.newTable) && TriedOk(h, key, b.infos, b.triedTable)
    requires RefsOk(b.infos, b.newTable, pending) && CountsOk(b.infos, b.nNew, b.nTried, skew)
    requires SameEntries(infos, b.infos)
    ensures NewOk(h, key, infos, b.newTable) && TriedOk(h, key, infos, b.triedTable)
    ensures RefsOk(infos, b.newTable, pending) && CountsOk(infos, b.nNew, b.nTried, skew)
    ensures AddrsOk(b.idCount, b.infos, b.addrs) ==> AddrsOk(b.idCount, infos, b.addrs)
  {
    assert forall i :: i in infos ==>
      infos[i].address == b.infos[i].address && infos[i].inTried == b.infos[i].inTried
      && infos[i].refCount == b.infos[i].refCount;
    assert NewIds(infos) == NewIds(b.infos);
    assert TriedIds(infos) == TriedIds(b.infos);
  }

  lemma SwapChange(h: Hashes, key: Key, b: Book, pending: set<int>, skew: int, p: int, q: int)
    requires Consistent(h, key, b, pending, skew)
    requires 0 <= p < |b.random| && 0 <= q < |b.random| && p != q
    ensures b.random[p] in b.infos && b.random[q] in b.infos && b.random[p] != b.random[q]
    ensures Consistent(h, key, Swapped(b, p, q), pending, skew)
    ensures SameEntries(Swapped(b, p, q).infos, b.infos)
  {
    hide RandomOk, AddrsOk, NewOk, TriedOk, RefsOk, CountsOk;
    SwapRandomOk(b, p, q);
    var infos := Swapped(b, p, q).infos;
    assert infos.Keys == b.infos.Keys;
    SameUpToPositions(h, key, b, infos, pending, skew);
  }

  /** `Swapped`, or nothing when the two positions are the same. */
  ghost function Exchanged(b: Book, p: int, q: int): Book
    requires RandomOk(b.infos, b.random)
    requires p == q || (0 <= p < |b.random| && 0 <= q < |b.random|)
  {
    if p == q then b else Swapped(b, p, q)
  }

  lemma ExchangeKeeps(b: Book, p: int, q: int, id: int)
    requires RandomOk(b.infos, b.random) && id in b.infos
    requires 0 <= p < |b.random| && 0 <= q < |b.random|
    ensures var c := Exchanged(b, p, q);
      && RandomOk(c.infos, c.random) && |c.random| == |b.random|
      && id in c.infos && SameUpToPos(c.infos[id], b.infos[id])
  {
    if p != q {
      SwapRandomOk(b, p, q);
    }
  }

  lemma ExchangeChange(h: Hashes, key: Key, b: Book, pending: set<int>, skew: int, p: int, q: int)
    requires Consistent(h, key, b, pending, skew)
    requires 0 <= p < |b.random| && 0 <= q < |b.random|
    ensures RandomOk(b.infos, b.random)
    ensures var c := Exchanged(b, p, q);
      && c == b.(infos := c.infos, random := c.random)
      && Consistent(h, key, c, pending, skew)
      && SameEntries(c.infos, b.infos)
      && |c.random| == |b.random|
      && b.random[p] in c.infos && c.infos[b.random[p]].randomPos == q
      && (forall k :: 0 <= k < |c.random| && k != p && k != q ==> c.random[k] == b.random[k])
  {
    SameEntriesReflexive(b.infos);
    if p != q {
      SwapChange(h, key, b, pending, skew, p, q);
    }
  }

  lemma AppendRandom(infos: map<int, Info>, random: seq<int>, id: int, info: Info)
    requires RandomOk(infos, random) && id !in infos && info.randomPos == |random|
    ensures RandomOk(infos[id := info], random + [id])
  {
    assert infos[id := info].Keys == infos.Keys + {id};
  }

  lemma AppendAddr(idCount: int, infos: map<int, Info>, addrs: map<NetAddr, int>, info: Info)
    requires AddrsOk(idCount, infos, addrs) && info.Ip() !in addrs && 0 <= idCount
    ensures idCount !in infos && AddrsOk(idCount + 1, infos[idCount := info], addrs[info.Ip() := idCount])
  {
  }

  lemma AppendTables(h: Hashes, key: Key, b: Book, info: Info)
    requires NewOk(h, key, b.infos, b.newTable) && TriedOk(h, key, b.infos, b.triedTable)
    requires b.idCount !in b.infos && !info.inTried
    ensures var infos := b.infos[b.idCount := info];
      && NewOk(h, key, infos, b.newTable) && TriedOk(h, key, infos, b.triedTable)
      && SlotsOf(b.newTable, b.idCount) == {}
      && NewIds(infos) == NewIds(b.infos) + {b.idCount} && b.idCount !in NewIds(b.infos)
      && TriedIds(infos) == TriedIds(b.infos)
  {
  }

  lemma CreateChange(h: Hashes, key: Key, b: Book, pending: set<int>, skew: int, info: Info)
    requires Consistent(h, key, b, pending, skew)
    requires info.Ip() !in b.addrs && 0 <= b.idCount
    requires info.refCount == 0 && !info.inTried && info.randomPos == |b.random|
    ensures b.idCount !in b.infos
    ensures Consistent(h, key, Created(b, info), pending + {b.idCount}, skew - 1)
  {
    hide RandomOk, AddrsOk, NewOk, TriedOk, NewIds, TriedIds;
    AppendAddr(b.idCount, b.infos, b.addrs, info);
    AppendTables(h, key, b, info);
    AppendRandom(b.infos, b.random, b.idCount, info);
  }

  lemma DropRandom(infos: map<int, Info>, random: seq<int>, id: int)
    requires RandomOk(infos, random) && id in infos && infos[id].randomPos == |random| - 1
    ensures RandomOk(infos - {id}, random[..|random| - 1])
  {
    var rest, last := infos - {id}, |random| - 1;
    assert rest.Keys == infos.Keys - {id};
    forall i | i in rest
      ensures 0 <= rest[i].randomPos < last && random[..last][rest[i].randomPos] == i
    {
      EntryIsApart(infos, random, id, i);
    }
    forall k | 0 <= k < last
      ensures random[..last][k] in rest && rest[random[..last][k]].randomPos == k
    {
      assert infos[random[k]].randomPos == k;
    }
  }

  lemma EntryIsApart(infos: map<int, Info>, random: seq<int>, id: int, i: int)
    requires RandomOk(infos, random) && id in infos && infos[id].randomPos == |random| - 1 && i in infos && i != id
    ensures 0 <= infos[i].randomPos < |random| - 1 && random[infos[i].randomPos] == i
  {
    assert random[infos[i].randomPos] == i && random[|random| - 1] == id;
  }

  lemma DropAddr(idCount: int, infos: map<int, Info>, addrs: map<NetAddr, int>, id: int)
    requires AddrsOk(idCount, infos, addrs) && id in infos
    ensures AddrsOk(idCount, infos - {id}, addrs - {infos[id].Ip()})
  {
  }

  lemma DropRefs(infos: map<int, Info>, table: Table, pending: set<int>, id: int)
    requires RefsOk(infos, table, pending) && id in infos
    ensures RefsOk(infos - {id}, table, pending - {id})
    ensures infos[id].refCount == 0 ==> SlotsOf(table, id) == {}
  {
  }

  lemma DropTables(h: Hashes, key: Key, b: Book, id: int)
    requires NewOk(h, key, b.infos, b.newTable) && TriedOk(h, key, b.infos, b.triedTable)
    requires id in b.infos && !b.infos[id].inTried && SlotsOf(b.newTable, id) == {}
    ensures var infos := b.infos - {id};
      && NewOk(h, key, infos, b.newTable) && TriedOk(h, key, infos, b.triedTable)
      && NewIds(infos) == NewIds(b.infos) - {id} && id in NewIds(b.infos)
      && TriedIds(infos) == TriedIds(b.infos)
  {
    assert forall s :: s in b.newTable ==> s in SlotsOf(b.newTable, b.newTable[s]);
  }

  /** Removing an unreferenced entry that stands last in the random order. */
  lemma RemoveChange(h: Hashes, key: Key, b: Book, pending: set<int>, skew: int, id: int)
    requires Consistent(h, key, b, pending, skew)
    requires id in b.infos && b.infos[id].refCount == 0 && !b.infos[id].inTried
    requires b.infos[id].randomPos == |b.random| - 1
    ensures Consistent(h, key, Removed(b, id), pending - {id}, skew)
  {
    assert 0 <= b.infos[id].randomPos;
    hide RandomOk, AddrsOk, NewOk, TriedOk, RefsOk, NewIds, TriedIds;
    DropRandom(b.infos, b.random, id);
    DropRefs(b.infos, b.newTable, pending, id);
    DropAddr(b.idCount, b.infos, b.addrs, id);
    DropTables(h, key, b, id);
  }

  /** What `Delete` leaves of all indexes. */
  ghost function Deleted(b: Book, id: int): Book
    requires RandomOk(b.infos, b.random) && id in b.infos
  {
    Removed(Exchanged(b, b.infos[id].randomPos, |b.random| - 1), id)
  }

  lemma DeleteChange(h: Hashes, key: Key, b: Book, pending: set<int>, skew: int, id: int)
    requires Consistent(h, key, b, pending, skew)
    requires id in b.infos && b.infos[id].refCount == 0 && !b.infos[id].inTried
    ensures RandomOk(b.infos, b.random)
    ensures var c := Deleted(b, id);
      && Consistent(h, key, c, pending - {id}, skew)
      && c.infos.Keys == b.infos.Keys - {id}
      && c.addrs == b.addrs - {b.infos[id].Ip()} && c.idCount == b.idCount
      && c.newTable == b.newTable && c.triedTable == b.triedTable
      && (forall i :: i in c.infos ==> SameUpToPos(c.infos[i], b.infos[i]))
  {
    hide Consistent, RandomOk, AddrsOk, NewOk, TriedOk, RefsOk, CountsOk, Exchanged, Swapped;
    PlaceOf(h, key, b, pending, skew, id);
    ExchangeChange(h, key, b, pending, skew, b.infos[id].randomPos, |b.random| - 1);
    var c := Exchanged(b, b.infos[id].randomPos, |b.random| - 1);
    assert SameUpToPos(c.infos[id], b.infos[id]);
    RemoveChange(h, key, c, pending, skew, id);
  }

  lemma DropSlot(infos: map<int, Info>, table: Table, pending: set<int>, s: Slot)
    requires RefsOk(infos, table, pending)
    requires s in table && table[s] in infos
    ensures infos[table[s]].refCount > 0
    ensures var id := table[s];
      RefsOk(infos[id := infos[id].(refCount := infos[id].refCount - 1)], table - {s}, pending + {id})
  {
    var id := table[s];
    forall i | i in infos ensures SlotsOf(table - {s}, i) == SlotsOf(table, i) - {s} {}
    assert s in SlotsOf(table, id);
    forall i | i in infos && i != id ensures s !in SlotsOf(table, i) {}
  }

  lemma UnrefChange(h: Hashes, key: Key, b: Book, pending: set<int>, skew: int, s: Slot)
    requires Consistent(h, key, b, pending, skew)
    requires s in b.newTable
    ensures b.infos[b.newTable[s]].refCount > 0
    ensures Consistent(h, key, Unreferenced(b, s), pending + {b.newTable[s]}, skew)
  {
    var id := b.newTable[s];
    var info := b.infos[id].(refCount := b.infos[id].refCount - 1);
    DropSlot(b.infos, b.newTable, pending, s);
    SameAddress(b.idCount, b.infos, b.random, b.addrs, id, info);
    SameTables(h, key, b.infos, b.newTable, b.triedTable, id, info);
  }

  lemma AddSlot(infos: map<int, Info>, table: Table, pending: set<int>, id: int, s: Slot)
    requires RefsOk(infos, table, pending)
    requires s !in table && id in infos && infos[id].refCount < NEW_BUCKETS_PER_ADDRESS
    ensures RefsOk(infos[id := infos[id].(refCount := infos[id].refCount + 1)], table[s := id], pending - {id})
  {
    forall i | i in infos && i != id ensures SlotsOf(table[s := id], i) == SlotsOf(table, i) {}
    assert SlotsOf(table[s := id], id) == SlotsOf(table, id) + {s};
  }

  lemma FillSlot(h: Hashes, key: Key, infos: map<int, Info>, table: Table, id: int, s: Slot)
    requires NewOk(h, key, infos, table) && id in infos && !infos[id].inTried
    requires InTable(s, NEW_BUCKET_COUNT) && s.pos == NewPos(h, key, infos[id].address.service, s.bucket)
    ensures NewOk(h, key, infos, table[s := id])
  {
  }

  lemma RefChange(h: Hashes, key: Key, b: Book, pending: set<int>, skew: int, id: int, s: Slot)
    requires Consistent(h, key, b, pending, skew)
    requires id in b.infos && !b.infos[id].inTried
    requires InTable(s, NEW_BUCKET_COUNT) && s.pos == NewPos(h, key, b.infos[id].address.service, s.bucket)
    requires s !in b.newTable && b.infos[id].refCount < NEW_BUCKETS_PER_ADDRESS
    ensures Consistent(h, key, Referenced(b, id, s), pending - {id}, skew)
  {
    hide RandomOk, AddrsOk, NewOk, TriedOk, RefsOk, NewPos, NewIds, TriedIds;
    var info := b.infos[id].(refCount := b.infos[id].refCount + 1);
    AddSlot(b.infos, b.newTable, pending, id, s);
    SameAddress(b.idCount, b.infos, b.random, b.addrs, id, info);
    SameTables(h, key, b.infos, b.newTable, b.triedTable, id, info);
    FillSlot(h, key, b.infos[id := info], b.newTable, id, s);
  }

  lemma UntryTables(h: Hashes, key: Key, b: Book, s: Slot)
    requires NewOk(h, key, b.infos, b.newTable) && TriedOk(h, key, b.infos, b.triedTable)
    requires s in b.triedTable
    ensures b.triedTable[s] in b.infos
    ensures var id := b.triedTable[s]; var infos := b.infos[id := b.infos[id].(inTried := false)];
      && NewOk(h, key, infos, b.newTable) && TriedOk(h, key, infos, b.triedTable - {s})
      && SlotsOf(b.newTable, id) == {}
      && NewIds(infos) == NewIds(b.infos) + {id} && id !in NewIds(b.infos)
      && TriedIds(infos) == TriedIds(b.infos) - {id} && id in TriedIds(b.infos)
  {
  }

  lemma UntryChange(h: Hashes, key: Key, b: Book, pending: set<int>, skew: int, s: Slot)
    requires Consistent(h, key, b, pending, skew)
    requires s in b.triedTable
    ensures b.triedTable[s] in b.infos && b.infos[b.triedTable[s]].refCount == 0
    ensures Consistent(h, key, Untried(b, s), pending + {b.triedTable[s]}, skew - 1)
  {
    hide RandomOk, AddrsOk, NewOk, TriedOk, NewIds, TriedIds;
    UntryTables(h, key, b, s);
    var id := b.triedTable[s];
    var info := b.infos[id].(inTried := false);
    SameAddress(b.idCount, b.infos, b.random, b.addrs, id, info);
  }

  lemma TryTables(h: Hashes, key: Key, b: Book, id: int)
    requires NewOk(h, key, b.infos, b.newTable) && TriedOk(h, key, b.infos, b.triedTable)
    requires id in b.infos && !b.infos[id].inTried && SlotsOf(b.newTable, id) == {}
    requires TriedSlot(h, key, b.infos[id].address.service) !in b.triedTable
    ensures var s := TriedSlot(h, key, b.infos[id].address.service);
      var infos := b.infos[id := b.infos[id].(inTried := true)];
      && NewOk(h, key, infos, b.newTable) && TriedOk(h, key, infos, b.triedTable[s := id])
      && NewIds(infos) == NewIds(b.infos) - {id} && id in NewIds(b.infos)
      && TriedIds(infos) == TriedIds(b.infos) + {id} && id !in TriedIds(b.infos)
  {
    assert forall s :: s in b.newTable ==> s in SlotsOf(b.newTable, b.newTable[s]);
  }

  lemma TryChange(h: Hashes, key: Key, b: Book, pending: set<int>, skew: int, id: int)
    requires Consistent(h, key, b, pending, skew)
    requires id in b.infos && !b.infos[id].inTried && b.infos[id].refCount == 0
    requires TriedSlot(h, key, b.infos[id].address.service) !in b.triedTable
    ensures Consistent(h, key, Tried(b, id, TriedSlot(h, key, b.infos[id].address.service)), pending - {id}, skew + 1)
  {
    var info := b.infos[id].(inTried := true);
    hide RandomOk, AddrsOk, NewOk, TriedOk, NewIds, TriedIds;
    TryTables(h, key, b, id);
    SameAddress(b.idCount, b.infos, b.random, b.addrs, id, info);
  }

  // What the operations built from these changes do.

  const TRIED_COLLISION_SIZE: int := 10
  const REPLACEMENT_HOURS: int := 4

  /** The effect of promoting an entry that is not in tried yet. */
  ghost predicate Promoted(h: Hashes, key: Key, b: Book, collisions: set<int>, id: int, testBeforeEvict: bool,
                           c: Book, collisions': set<int>)
    requires id in b.infos
  {
    if testBeforeEvict && TriedSlot(h, key, b.infos[id].address.service) in b.triedTable then
      c == b && collisions' == collisions + (if |collisions| < TRIED_COLLISION_SIZE then {id} else {})
    else
      MovedToTried(h, key, b, id, c) && collisions' == collisions
  }

  /** The effect of marking `addr` good at `time`. */
  ghost predicate MarkedGood(h: Hashes, key: Key, b: Book, collisions: set<int>,
                             addr: Service, testBeforeEvict: bool, time: int,
                             c: Book, collisions': set<int>)
  {
    if addr.ip in b.addrs && b.addrs[addr.ip] in b.infos && b.infos[b.addrs[addr.ip]].address.service == addr then
      var id := b.addrs[addr.ip];
      var marked := Replaced(b, id, Marked(b.infos[id], time));
      if b.infos[id].inTried then
        c == marked && collisions' == collisions
      else
        Promoted(h, key, marked, collisions, id, testBeforeEvict, c, collisions')
    else
      c == b && collisions' == collisions
  }

  function Marked(info: Info, time: int): Info {
    info.(lastSuccess := time, lastTry := time, attempts := 0)
  }

  /** An entry after an attempt to connect to `addr`; a failure counts once between two good connections. */
  function Attempted(info: Info, addr: Service, countFailure: bool, time: int, lastGood: int): Info {
    if info.address.service != addr then info
    else if countFailure && info.lastCountAttempt < lastGood then
      info.(lastTry := time, lastCountAttempt := time, attempts := info.attempts + 1)
    else info.(lastTry := time)
  }

  /** An entry after a connection to `addr`; its time is refreshed at most every 20 minutes. */
  function Seen(info: Info, addr: Service, time: int): Info {
    if info.address.service == addr && time - info.address.time > 20 * 60
    then info.(address := info.address.(time := ToUint32(time))) else info
  }

  function Serving(info: Info, addr: Service, services: bv64): Info {
    if info.address.service == addr then info.(address := info.address.(services := services)) else info
  }

  /** Every entry changed by `f`, and nothing else. */
  ghost function EachEntry(b: Book, f: Info -> Info): Book {
    b.(infos := EachInfo(b.infos, f))
  }

  ghost function EachInfo(infos: map<int, Info>, f: Info -> Info): map<int, Info> {
    map i | i in infos :: f(infos[i])
  }

  /** A change of the entry of one address is all that happens when the others stay as they are. */
  lemma OneEntry(h: Hashes, key: Key, b: Book, pending: set<int>, skew: int, addr: Service, f: Info -> Info)
    requires Consistent(h, key, b, pending, skew)
    requires forall i :: i in b.infos && b.infos[i].address.service != addr ==> f(b.infos[i]) == b.infos[i]
    ensures AddrsOk(b.idCount, b.infos, b.addrs)
    ensures addr.ip in b.addrs ==> b.addrs[addr.ip] in b.infos
    ensures EachEntry(b, f) ==
      if addr.ip in b.addrs then var id := b.addrs[addr.ip]; Replaced(b, id, f(b.infos[id])) else b
  {
    EntriesAreIndexed(h, key, b, pending, skew);
    hide Consistent;
    forall i | i in b.infos && f(b.infos[i]) != b.infos[i]
      ensures addr.ip in b.addrs && i == b.addrs[addr.ip]
    {
      assert b.infos[i].Ip() == addr.ip;
    }
    hide AddrsOk;
    if addr.ip in b.addrs {
      OneChanged(b.infos, f, b.addrs[addr.ip]);
    } else {
      NoneChanged(b.infos, f);
    }
  }

  lemma OneChanged(infos: map<int, Info>, f: Info -> Info, id: int)
    requires id in infos && forall i :: i in infos && i != id ==> f(infos[i]) == infos[i]
    ensures EachInfo(infos, f) == infos[id := f(infos[id])]
  {
    var all, one := EachInfo(infos, f), infos[id := f(infos[id])];
    forall i | i in infos ensures i in all && i in one && all[i] == one[i] {
      assert i == id || f(infos[i]) == infos[i];
    }
    assert all.Keys == one.Keys == infos.Keys;
  }

  lemma NoneChanged(infos: map<int, Info>, f: Info -> Info)
    requires forall i :: i in infos ==> f(infos[i]) == infos[i]
    ensures EachInfo(infos, f) == infos
  {
    var all := EachInfo(infos, f);
    forall i | i in infos ensures i in all && all[i] == infos[i] {
      assert f(infos[i]) == infos[i];
    }
    assert all.Keys == infos.Keys;
  }

  /** What the clock showed each time one visit to a collision read it; the marking is 0 if nothing was marked. */
  datatype Readings = Readings(success: int, attempt: int, grace: int, marking: int)

  /**
   * The outcome of one visit to the collision of `id`. A stale or unusable newcomer is dropped, and so is one whose
   * rival connected within the last hours; a rival that was tried in those hours, but more than a minute ago, is
   * replaced; otherwise the collision stays. The contested slot is taken in every case.
   */
  ghost predicate Resolved(h: Hashes, key: Key, b: Book, id: int, clock: Readings, erase: bool, c: Book) {
    if id !in b.infos || !h.isValid(b.infos[id].Ip()) then
      erase && c == b && clock.marking == 0
    else
      var s := TriedSlot(h, key, b.infos[id].address.service);
      && s in b.triedTable && b.triedTable[s] in b.infos
      && var rival := b.infos[b.triedTable[s]];
      if clock.success - rival.lastSuccess < REPLACEMENT_HOURS * (60 * 60) then
        erase && c == b && clock.marking == 0
      else if ReplacesRival(rival, clock) then
        && erase && clock.marking > 0
        && MarkedGood(h, key, b, {}, b.infos[id].address.service, false, clock.marking, c, {})
      else
        !erase && c == b && clock.marking == 0
  }

  predicate ReplacesRival(rival: Info, clock: Readings) {
    && clock.success - rival.lastSuccess >= REPLACEMENT_HOURS * (60 * 60)
    && clock.attempt - rival.lastTry < REPLACEMENT_HOURS * (60 * 60)
    && clock.grace - rival.lastTry > 60
  }

  /** A visit adds no entry, and changes nothing unless the collision is settled. */
  lemma ResolvedKeepsEntries(h: Hashes, key: Key, b: Book, id: int, clock: Readings, erase: bool, c: Book)
    requires Resolved(h, key, b, id, clock, erase, c)
    ensures c.infos.Keys <= b.infos.Keys
    ensures !erase ==> c == b
  {
  }

  /** A newcomer that replaces its rival holds the contested tried slot afterwards, whatever else was displaced. */
  lemma WinnerTakesSlot(h: Hashes, key: Key, b: Book, id: int, clock: Readings, erase: bool, c: Book)
    requires Consistent(h, key, b, {}, 0) && Resolved(h, key, b, id, clock, erase, c)
    requires id in b.infos && h.isValid(b.infos[id].Ip())
    ensures var s := TriedSlot(h, key, b.infos[id].address.service);
      && s in b.triedTable && b.triedTable[s] in b.infos
      && (ReplacesRival(b.infos[b.triedTable[s]], clock) ==> s in c.triedTable && c.triedTable[s] == id)
  {
  }

  /** One visit to a collision: which one, what the clock showed, and whether it is settled. */
  datatype Visit = Visit(id: int, clock: Readings, erase: bool)

  /**
   * A round over the noted collisions: every one is visited, none twice; each visit takes the indexes
   * to the next ones as specified; and the collisions left are those whose visit did not settle them.
   */
  ghost predicate AllVisited(h: Hashes, key: Key, noted: set<int>, visits: seq<Visit>, books: seq<Book>, left: set<int>)
  {
    && |books| == |visits| + 1
    && (forall i, j :: 0 <= i < j < |visits| ==> visits[i].id != visits[j].id)
    && noted == (set v | v in visits :: v.id)
    && left == (set v | v in visits && !v.erase :: v.id)
    && forall k :: 0 <= k < |visits| ==>
      Resolved(h, key, books[k], visits[k].id, visits[k].clock, visits[k].erase, books[k + 1])
  }

  /** The time of the last good connection after a round: that of its last marking. */
  function LastMarking(visits: seq<Visit>, lastGood: int): int {
    if visits == [] then lastGood
    else if visits[|visits| - 1].clock.marking > 0 then visits[|visits| - 1].clock.marking
    else LastMarking(visits[..|visits| - 1], lastGood)
  }

  lemma FewerNoted(h: Hashes, key: Key, b: Book, noted: set<int>, left: set<int>)
    requires CollisionsOk(h, key, b, noted) && left <= noted
    ensures CollisionsOk(h, key, b, left)
  {
    hide TriedSlot;
  }

  lemma NoneVisited(h: Hashes, key: Key, b: Book, lastGood: int)
    ensures AllVisited(h, key, {}, [], [b], {}) && LastMarking([], lastGood) == lastGood
  {
  }

  lemma VisitedNext(h: Hashes, key: Key, noted: set<int>, visits: seq<Visit>, books: seq<Book>, left: set<int>,
                    v: Visit, c: Book)
    requires AllVisited(h, key, noted, visits, books, left) && v.id !in noted
    requires Resolved(h, key, books[|visits|], v.id, v.clock, v.erase, c)
    ensures AllVisited(h, key, noted + {v.id}, visits + [v], books + [c], if v.erase then left else left + {v.id})
    ensures forall lastGood ::
      LastMarking(visits + [v], lastGood) ==
      if v.clock.marking > 0 then v.clock.marking else LastMarking(visits, lastGood)
  {
    hide Resolved;
    var more, all := visits + [v], books + [c];
    assert more[..|visits|] == visits;
    assert forall u :: u in more <==> u in visits || u == v;
    assert v in more;
    forall i | 0 <= i < |visits| ensures visits[i].id != v.id {
      assert visits[i] in visits;
    }
    forall k | 0 <= k < |more|
      ensures Resolved(h, key, all[k], more[k].id, more[k].clock, more[k].erase, all[k + 1])
    {
      assert k < |visits| ==> all[k] == books[k] && all[k + 1] == books[k + 1] && more[k] == visits[k];
    }
  }

  lemma MarkChange(h: Hashes, key: Key, b: Book, id: int, time: int, collisions: set<int>)
    requires Consistent(h, key, b, {}, 0) && id in b.infos && CollisionsOk(h, key, b, collisions)
    ensures Consistent(h, key, Replaced(b, id, Marked(b.infos[id], time)), {}, 0)
    ensures CollisionsOk(h, key, Replaced(b, id, Marked(b.infos[id], time)), collisions)
    ensures time > 0 && TimesOk(b.infos) ==> TimesOk(b.infos[id := Marked(b.infos[id], time)])
  {
    hide Consistent;
    StatsChange(h, key, b, {}, 0, id, Marked(b.infos[id], time));
  }

  lemma CollisionAdded(h: Hashes, key: Key, b: Book, id: int, collisions: set<int>)
    requires Consistent(h, key, b, {}, 0) && id in b.infos && CollisionsOk(h, key, b, collisions)
    requires TriedSlot(h, key, b.infos[id].address.service) in b.triedTable
    ensures CollisionsOk(h, key, b, collisions + {id})
  {
    IdsAreNatural(h, key, b, {}, 0, id);
  }

  lemma CollisionsAfterMove(h: Hashes, key: Key, b: Book, id: int, c: Book, collisions: set<int>)
    requires CollisionsOk(h, key, b, collisions)
    requires id in b.infos && MovedToTried(h, key, b, id, c)
    ensures CollisionsOk(h, key, c, collisions)
  {
    forall i | i in collisions && i in c.infos
      ensures TriedSlot(h, key, c.infos[i].address.service) in c.triedTable
    {
      assert SameStats(c.infos[i], b.infos[i]);
    }
  }

  lemma TimesAfterMove(h: Hashes, key: Key, b: Book, id: int, c: Book)
    requires TimesOk(b.infos)
    requires id in b.infos && b.infos[id].lastSuccess != 0 && MovedToTried(h, key, b, id, c)
    ensures TimesOk(c.infos)
  {
    forall i | i in c.infos
      ensures c.infos[i].lastTry >= 0 && c.infos[i].lastSuccess >= 0
      ensures c.infos[i].inTried ==> c.infos[i].lastSuccess != 0
    {
      assert SameStats(c.infos[i], b.infos[i]);
    }
  }

  /** An entry outside tried sits in some new bucket, at its own position. */
  lemma InSomeBucket(h: Hashes, key: Key, b: Book, id: int) returns (s: Slot)
    requires Consistent(h, key, b, {}, 0)
    requires id in b.infos && !b.infos[id].inTried
    ensures s in b.newTable && b.newTable[s] == id && InTable(s, NEW_BUCKET_COUNT)
    ensures s.pos == NewPos(h, key, b.infos[id].address.service, s.bucket)
  {
    assert SlotsOf(b.newTable, id) != {};
    s :| s in SlotsOf(b.newTable, id);
  }

  /** Conversion to a 32-bit unsigned integer. */
  function ToUint32(x: int): int { x % 0x1_0000_0000 }

  /** A known entry after its address was announced again. */
  function Refreshed(info: Info, addr: Address, penalty: int, now: int): Info {
    var interval := if now - addr.time < 24 * 60 * 60 then 60 * 60 else 24 * 60 * 60;
    var time :=
      if addr.time != 0 && (info.address.time == 0 || info.address.time < addr.time - interval - penalty) then
        ToUint32(Max(0, addr.time - penalty))
      else
        info.address.time;
    info.(address := info.address.(services := info.address.services | addr.services, time := time))
  }

  lemma RefreshedIdentity(info: Info, addr: Address, penalty: int, now: int)
    ensures var r := Refreshed(info, addr, penalty, now);
      r == info.(address := r.address) && r.address.service == info.address.service
  {
  }

  /** A first announcement. */
  function Announced(addr: Address, source: NetAddr, penalty: int, place: int): Info {
    Info(addr.(time := ToUint32(Max(0, addr.time - penalty))), source, 0, 0, 0, 0, 0, false, place)
  }

  /** Whether entry `id` may take slot `s` of the new table from its occupant. */
  predicate MayTake(b: Book, id: int, s: Slot, now: int)
    requires id in b.infos
  {
    || s !in b.newTable
    || b.newTable[s] !in b.infos
    || IsTerrible(b.infos[b.newTable[s]], now)
    || (b.infos[b.newTable[s]].refCount > 1 && b.infos[id].refCount == 0)
  }

  /** The effect of filing `id` under a source. */
  ghost predicate Placed(h: Hashes, key: Key, b: Book, id: int, source: NetAddr, now: int, c: Book)
    requires id in b.infos
  {
    var s := NewSlot(h, key, b.infos[id].address.service, source);
    && c.triedTable == b.triedTable
    && c.idCount == b.idCount
    && (forall i :: i in c.infos ==>
          i in b.infos && SameStats(c.infos[i], b.infos[i]) && c.infos[i].inTried == b.infos[i].inTried)
    && (if s in b.newTable && b.newTable[s] == id then
          c.newTable == b.newTable && c.infos.Keys == b.infos.Keys
        else if MayTake(b, id, s, now) then
          c.newTable == b.newTable[s := id] && c.infos.Keys == b.infos.Keys - Displaced(b.infos, b.newTable, s)
        else
          c.newTable == b.newTable && c.infos.Keys == b.infos.Keys - (if b.infos[id].refCount == 0 then {id} else {}))
  }

  lemma CollisionsAfterPlace(h: Hashes, key: Key, b: Book, id: int, source: NetAddr, now: int, c: Book,
                             collisions: set<int>)
    requires CollisionsOk(h, key, b, collisions)
    requires id in b.infos && Placed(h, key, b, id, source, now, c)
    ensures CollisionsOk(h, key, c, collisions)
    ensures TimesOk(b.infos) ==> TimesOk(c.infos)
  {
    forall i | i in c.infos ensures
      && c.infos[i].address.service == b.infos[i].address.service
      && c.infos[i].lastTry == b.infos[i].lastTry && c.infos[i].lastSuccess == b.infos[i].lastSuccess
    {
      assert SameStats(c.infos[i], b.infos[i]);
    }
  }

  /** The book right after a first announcement, before the entry is filed. */
  function Introduced(b: Book, addr: Address, source: NetAddr, penalty: int): Book {
    Created(b, Announced(addr, source, penalty, |b.random|)).(nNew := b.nNew + 1)
  }

  lemma IntroduceChange(h: Hashes, key: Key, b: Book, addr: Address, source: NetAddr, penalty: int,
                        collisions: set<int>)
    requires Consistent(h, key, b, {}, 0) && addr.service.ip !in b.addrs && b.idCount >= 0
    requires CollisionsOk(h, key, b, collisions)
    ensures Consistent(h, key, Introduced(b, addr, source, penalty), {b.idCount}, 0)
    ensures CollisionsOk(h, key, Introduced(b, addr, source, penalty), collisions)
    ensures TimesOk(b.infos) ==> TimesOk(Introduced(b, addr, source, penalty).infos)
  {
    hide Consistent, CollisionsOk, TimesOk;
    var info := Announced(addr, source, penalty, |b.random|);
    CreateChange(h, key, b, {}, 0, info);
    assert {} + {b.idCount} == {b.idCount};
    Recount(h, key, Created(b, info), {b.idCount}, -1, 1);
    IntroduceTimes(h, key, b, info, collisions);
  }

  lemma IntroduceTimes(h: Hashes, key: Key, b: Book, info: Info, collisions: set<int>)
    requires CollisionsOk(h, key, b, collisions) && b.idCount !in b.infos
    requires info.lastTry == 0 && info.lastSuccess == 0 && !info.inTried
    ensures CollisionsOk(h, key, Created(b, info).(nNew := b.nNew + 1), collisions)
    ensures TimesOk(b.infos) ==> TimesOk(Created(b, info).(nNew := b.nNew + 1).infos)
  {
    hide TriedSlot;
  }

  lemma RefreshChange(h: Hashes, key: Key, b: Book, id: int, info: Info, collisions: set<int>)
    requires Consistent(h, key, b, {}, 0) && id in b.infos && CollisionsOk(h, key, b, collisions)
    requires info == b.infos[id].(address := info.address) && info.address.service == b.infos[id].address.service
    ensures Consistent(h, key, Replaced(b, id, info), {}, 0)
    ensures CollisionsOk(h, key, Replaced(b, id, info), collisions)
    ensures TimesOk(b.infos) ==> TimesOk(Replaced(b, id, info).infos)
  {
    hide Consistent;
    StatsChange(h, key, b, {}, 0, id, info);
  }

  /** Whether a refreshed entry still qualifies for one more new-table slot. */
  predicate MayRefile(info: Info, addr: Address) {
    && addr.time != 0
    && !(info.address.time != 0 && addr.time <= info.address.time)
    && !info.inTried
    && info.refCount != NEW_BUCKETS_PER_ADDRESS
  }

  /**
   * The effect of `Add`; whether a qualifying known entry is refiled is decided by a coin. The clock shows `seen` when
   * the entry is refreshed and `now` when the occupant of its slot is judged.
   */
  ghost predicate Added(h: Hashes, key: Key, b: Book, addr: Address, source: NetAddr, timePenalty: int,
                        seen: int, now: int, isNew: bool, c: Book)
  {
    var ip := addr.service.ip;
    var penalty := if ip == source then 0 else timePenalty;
    if !h.isRoutable(ip) then
      c == b && !isNew
    else if ip in b.addrs && b.addrs[ip] in b.infos then
      var id := b.addrs[ip];
      var info := Refreshed(b.infos[id], addr, penalty, seen);
      var d := Replaced(b, id, info);
      !isNew && (c == d || (MayRefile(info, addr) && Placed(h, key, d, id, source, now, c)))
    else
      isNew && Placed(h, key, Introduced(b, addr, source, penalty), b.idCount, source, now, c)
  }

  /** Within `Placed`, an address is known afterwards exactly when its entry survived. */
  lemma KnownAfterPlace(h: Hashes, key: Key, b: Book, id: int, source: NetAddr, now: int, c: Book, i: int)
    requires AddrsOk(b.idCount, b.infos, b.addrs) && AddrsOk(c.idCount, c.infos, c.addrs)
    requires id in b.infos && i in b.infos && Placed(h, key, b, id, source, now, c)
    ensures b.infos[i].Ip() in c.addrs <==> i in c.infos
  {
    var ip := b.infos[i].Ip();
    if ip in c.addrs {
      var j := c.addrs[ip];
      assert SameStats(c.infos[j], b.infos[j]) && b.addrs[b.infos[j].Ip()] == j;
    }
    if i in c.infos {
      assert SameStats(c.infos[i], b.infos[i]) && c.infos[i].Ip() in c.addrs;
    }
  }

  lemma IntroducedFacts(h: Hashes, key: Key, b: Book, addr: Address, source: NetAddr, penalty: int)
    requires Consistent(h, key, b, {}, 0) && b.idCount >= 0 && addr.service.ip !in b.addrs
    ensures var d := Introduced(b, addr, source, penalty);
      && b.idCount !in b.infos && d.infos[b.idCount].address.service == addr.service
      && d.infos[b.idCount].refCount == 0
      && AddrsOk(d.idCount, d.infos, d.addrs)
      && (forall s :: s in b.newTable ==> b.newTable[s] in b.infos && b.newTable[s] != b.idCount)
  {
  }

  /**
   * `Add` reports an unknown address as added even when it throws it away again:
   * the address is known afterwards exactly when its slot was free, or held by
   * an entry that is terrible or has another slot. No other address is lost but
   * the one whose last slot was taken.
   */
  lemma AddRemembers(h: Hashes, key: Key, b: Book, addr: Address, source: NetAddr, penalty: int, seen: int, now: int,
                     c: Book)
    requires Consistent(h, key, b, {}, 0) && Consistent(h, key, c, {}, 0) && b.idCount >= 0
    requires addr.service.ip !in b.addrs && Added(h, key, b, addr, source, penalty, seen, now, true, c)
    ensures var s := NewSlot(h, key, addr.service, source);
      && (addr.service.ip in c.addrs <==>
            s !in b.newTable
            || (b.newTable[s] in b.infos &&
                (IsTerrible(b.infos[b.newTable[s]], now) || b.infos[b.newTable[s]].refCount > 1)))
      && (forall i :: i in b.infos && b.infos[i].Ip() !in c.addrs ==>
            s in b.newTable && b.newTable[s] == i && b.infos[i].refCount == 1)
  {
    hide IsTerrible, NewSlot, Consistent, AddrsOk;
    var s, id := NewSlot(h, key, addr.service, source), b.idCount;
    var p := if addr.service.ip == source then 0 else penalty;
    var d := Introduced(b, addr, source, p);
    IntroducedFacts(h, key, b, addr, source, p);
    EntriesAreIndexed(h, key, c, {}, 0);
    KnownAfterPlace(h, key, d, id, source, now, c, id);
    forall i | i in b.infos && b.infos[i].Ip() !in c.addrs
      ensures s in b.newTable && b.newTable[s] == i && b.infos[i].refCount == 1
    {
      KnownAfterPlace(h, key, d, id, source, now, c, i);
    }
  }

  /** The first address of an empty manager takes its slot. */
  lemma FirstAdded(h: Hashes, key: Key, addr: Address, source: NetAddr, penalty: int, seen: int, now: int, c: Book)
    requires Added(h, key, EMPTY, addr, source, penalty, seen, now, true, c) && Consistent(h, key, c, {}, 0)
    ensures c.newTable == map[NewSlot(h, key, addr.service, source) := 0] && c.infos.Keys == {0} && c.idCount == 1
    ensures var p := if addr.service.ip == source then 0 else penalty;
      SameStats(c.infos[0], Announced(addr, source, p, 0)) && c.infos[0].refCount == 1
  {
    hide NewSlot, IsTerrible, Announced;
    var s := NewSlot(h, key, addr.service, source);
    AnnouncedService(addr, source, if addr.service.ip == source then 0 else penalty, 0);
    assert c.newTable == map[s := 0];
    assert SlotsOf(c.newTable, 0) == {s};
  }

  lemma AnnouncedService(addr: Address, source: NetAddr, penalty: int, place: int)
    ensures Announced(addr, source, penalty, place).address.service == addr.service
  {
  }

  /** Same place, same tables; statistics may differ. */
  predicate SameStanding(i: Info, j: Info) {
    && i.address.service == j.address.service && i.source == j.source
    && i.refCount == j.refCount && i.inTried == j.inTried && i.randomPos == j.randomPos
  }

  lemma StandingChange(h: Hashes, key: Key, b: Book, id: int, info: Info, collisions: set<int>)
    requires Consistent(h, key, b, {}, 0) && CollisionsOk(h, key, b, collisions)
    requires id in b.infos && SameStanding(info, b.infos[id])
    ensures Consistent(h, key, Replaced(b, id, info), {}, 0)
    ensures CollisionsOk(h, key, Replaced(b, id, info), collisions)
    ensures TimesOk(b.infos) && info.lastTry >= 0 && info.lastSuccess == b.infos[id].lastSuccess ==>
      TimesOk(b.infos[id := info])
  {
    hide Consistent;
    StatsChange(h, key, b, {}, 0, id, info);
  }

  lemma DistinctIps(h: Hashes, key: Key, b: Book, p: int, q: int)
    requires Consistent(h, key, b, {}, 0) && 0 <= p < q < |b.random|
    ensures b.random[p] in b.infos && b.random[q] in b.infos
    ensures b.infos[b.random[p]].Ip() != b.infos[b.random[q]].Ip()
  {
    var i, j := b.random[p], b.random[q];
    assert b.infos[i].randomPos == p && b.infos[j].randomPos == q;
    assert b.addrs[b.infos[i].Ip()] == i && b.addrs[b.infos[j].Ip()] == j;
  }

  /**
   * A sample drawn in `order`: the entries at `places` are exactly those that were not terrible at the time their
   * reading of the clock says, in that order.
   */
  ghost predicate Sampled(infos: map<int, Info>, order: seq<int>, readings: seq<int>, places: seq<int>,
                          sample: seq<Address>)
  {
    && |readings| <= |order| && |places| == |sample|
    && (forall n :: 0 <= n < |readings| ==> order[n] in infos)
    && (forall k :: 0 <= k < |places| ==> 0 <= places[k] < |readings| && infos[order[places[k]]].address == sample[k])
    && (forall j, k :: 0 <= j < k < |places| ==> places[j] < places[k])
    && (forall n :: 0 <= n < |readings| ==> (n in places <==> !IsTerrible(infos[order[n]], readings[n])))
  }

  lemma NoneSampled(infos: map<int, Info>)
    ensures Sampled(infos, [], [], [], [])
  {
  }

  lemma SampledNext(was: map<int, Info>, infos: map<int, Info>, done: seq<int>, readings: seq<int>, places: seq<int>,
                    sample: seq<Address>, id: int, now: int)
    requires Sampled(was, done, readings, places, sample) && |done| == |readings|
    requires SameEntries(infos, was) && id in infos
    ensures if IsTerrible(infos[id], now) then Sampled(was, done + [id], readings + [now], places, sample)
            else Sampled(was, done + [id], readings + [now], places + [|done|], sample + [infos[id].address])
  {
    assert SameUpToPos(infos[id], was[id]);
    assert IsTerrible(infos[id], now) == IsTerrible(was[id], now);
    hide IsTerrible;
    assert |done| !in places;
    assert forall n :: n in places + [|done|] <==> n in places || n == |done|;
  }

  lemma SampledMore(infos: map<int, Info>, done: seq<int>, order: seq<int>, readings: seq<int>, places: seq<int>,
                    sample: seq<Address>)
    requires Sampled(infos, done, readings, places, sample) && done <= order
    ensures Sampled(infos, order, readings, places, sample)
  {
    hide IsTerrible;
  }

  /** Sampled addresses are known and different, and an entry that was judged is sampled just when it was good. */
  lemma SampleFacts(h: Hashes, key: Key, b: Book, was: map<int, Info>, readings: seq<int>, places: seq<int>,
                    sample: seq<Address>)
    requires Consistent(h, key, b, {}, 0) && SameEntries(b.infos, was)
    requires Sampled(was, b.random, readings, places, sample)
    ensures forall a :: a in sample ==> exists i :: i in b.infos && b.infos[i].address == a
    ensures forall j, k :: 0 <= j < k < |sample| ==> sample[j].service.ip != sample[k].service.ip
    ensures forall n :: 0 <= n < |readings| ==>
      && b.random[n] in b.infos
      && (b.infos[b.random[n]].address in sample <==> !IsTerrible(b.infos[b.random[n]], readings[n]))
  {
    hide Consistent, IsTerrible, SameEntries;
    forall k | 0 <= k < |sample|
      ensures b.random[places[k]] in b.infos && b.infos[b.random[places[k]]].address == sample[k]
    {
      SameEntriesAddress(b.infos, was, b.random[places[k]]);
    }
    forall a | a in sample ensures exists i :: i in b.infos && b.infos[i].address == a {
      var k :| 0 <= k < |sample| && sample[k] == a;
      var i := b.random[places[k]];
      assert i in b.infos && b.infos[i].address == a;
    }
    forall j, k | 0 <= j < k < |sample| ensures sample[j].service.ip != sample[k].service.ip {
      DistinctIps(h, key, b, places[j], places[k]);
    }
    forall n | 0 <= n < |readings|
      ensures b.random[n] in b.infos
      ensures b.infos[b.random[n]].address in sample <==> !IsTerrible(b.infos[b.random[n]], readings[n])
    {
      SampledAt(h, key, b, was, readings, places, sample, n);
      JudgedAlike(b.infos, was, b.random[n], readings[n]);
    }
  }

  lemma JudgedAlike(infos: map<int, Info>, was: map<int, Info>, id: int, now: int)
    requires SameEntries(infos, was) && id in infos
    ensures IsTerrible(infos[id], now) == IsTerrible(was[id], now)
  {
    assert SameUpToPos(infos[id], was[id]);
  }

  lemma SampledAt(h: Hashes, key: Key, b: Book, was: map<int, Info>, readings: seq<int>, places: seq<int>,
                  sample: seq<Address>, n: int)
    requires Consistent(h, key, b, {}, 0) && SameEntries(b.infos, was)
    requires Sampled(was, b.random, readings, places, sample)
    requires 0 <= n < |readings|
    ensures b.random[n] in b.infos && (b.infos[b.random[n]].address in sample <==> n in places)
  {
    hide Consistent, IsTerrible;
    var id := b.random[n];
    SameEntriesAddress(b.infos, was, id);
    if n in places {
      var k :| 0 <= k < |places| && places[k] == n;
      assert sample[k] == b.infos[id].address;
    }
    if b.infos[id].address in sample {
      var k :| 0 <= k < |sample| && sample[k] == b.infos[id].address;
      var p := places[k];
      SameEntriesAddress(b.infos, was, b.random[p]);
      if p < n {
        DistinctIps(h, key, b, p, n);
      } else if n < p {
        DistinctIps(h, key, b, n, p);
      }
    }
  }

  lemma SameEntriesKeys(infos: map<int, Info>, was: map<int, Info>)
    requires SameEntries(infos, was)
    ensures |infos| == |was|
  {
    assert |infos| == |infos.Keys| && |was| == |was.Keys|;
  }

  lemma CollisionsUpToPos(h: Hashes, key: Key, b: Book, infos: map<int, Info>, random: seq<int>, collisions: set<int>)
    requires CollisionsOk(h, key, b, collisions)
    requires SameEntries(infos, b.infos)
    ensures CollisionsOk(h, key, b.(infos := infos, random := random), collisions)
    ensures TimesOk(b.infos) ==> TimesOk(infos)
  {
    assert forall i :: i in infos ==>
      && infos[i].address == b.infos[i].address && infos[i].inTried == b.infos[i].inTried
      && infos[i].lastTry == b.infos[i].lastTry && infos[i].lastSuccess == b.infos[i].lastSuccess;
  }
}
