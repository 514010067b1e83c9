/**
 * Writing an address manager and reading it back: ids are renumbered, first
 * the entries of the new table and then those of the tried table, and
 * everything that is meant to persist is found again under the new ids.
 */
module AddrManRoundTrip {
  import opened AddrManModel
  import opened AddrManImage
  import opened Common

  // Ids in ascending order.

  /** The members of `p` below `n`, in order. */
  function Ascending(p: set<int>, n: int): seq<int> {
    if n <= 0 then [] else Ascending(p, n - 1) + (if n - 1 in p then [n - 1] else [])
  }

  lemma AscendingMember(p: set<int>, n: int, k: int)
    requires 0 <= k < |Ascending(p, n)|
    ensures var id := Ascending(p, n)[k]; id in p && 0 <= id < n && |Ascending(p, id)| == k
  {
    if k < |Ascending(p, n - 1)| {
      AscendingMember(p, n - 1, k);
    }
  }

  lemma AscendingAt(p: set<int>, n: int, id: int)
    requires id in p && 0 <= id < n
    ensures |Ascending(p, id)| < |Ascending(p, n)| && Ascending(p, n)[|Ascending(p, id)|] == id
  {
    if id != n - 1 {
      AscendingAt(p, n - 1, id);
    }
  }

  lemma AscendingSize(p: set<int>, n: int)
    requires forall i :: i in p ==> 0 <= i < n
    ensures |Ascending(p, n)| == |p|
  {
    if n <= 0 {
      assert forall i :: i !in p;
    } else {
      AscendingSize(p - {n - 1}, n - 1);
      SameBelow(p, p - {n - 1}, n - 1);
    }
  }

  lemma SameBelow(p: set<int>, q: set<int>, n: int)
    requires forall i :: 0 <= i < n ==> (i in p <==> i in q)
    ensures Ascending(p, n) == Ascending(q, n)
  {
  }

  // Writing.

  function NewOrder(b: Book): seq<int> { Ascending(NewIds(b.infos), b.idCount) }

  function TriedOrder(b: Book): seq<int> { Ascending(TriedIds(b.infos), b.idCount) }

  /** The number an entry is given in the image. */
  function Rank(b: Book, id: int): int
    requires id in b.infos
  {
    if b.infos[id].inTried then |NewOrder(b)| + |Ascending(TriedIds(b.infos), id)|
    else |Ascending(NewIds(b.infos), id)|
  }

  function Records(infos: map<int, Info>, ids: seq<int>): (r: seq<Record>)
    requires forall k :: 0 <= k < |ids| ==> ids[k] in infos
    ensures |r| == |ids|
  {
    seq(|ids|, k requires 0 <= k < |ids| => Stored(infos[ids[k]]))
  }

  /** What the first `n` slots of a bucket hold. */
  function BucketIds(table: Table, bucket: int, n: int): seq<int> {
    if n <= 0 then []
    else BucketIds(table, bucket, n - 1) + (if Slot(bucket, n - 1) in table then [table[Slot(bucket, n - 1)]] else [])
  }

  function Ranks(p: set<int>, ids: seq<int>): (r: seq<int>)
    ensures |r| == |ids|
  {
    seq(|ids|, k requires 0 <= k < |ids| => |Ascending(p, ids[k])|)
  }

  /** The bucket lists from `bucket` on, each preceded by its length. */
  function PositionsFrom(p: set<int>, table: Table, bucket: int): seq<int>
    decreases NEW_BUCKET_COUNT - bucket
  {
    if bucket >= NEW_BUCKET_COUNT then []
    else
      var ids := BucketIds(table, bucket, BUCKET_SIZE);
      [|ids|] + Ranks(p, ids) + PositionsFrom(p, table, bucket + 1)
  }

  lemma OrdersAreEntries(b: Book)
    ensures forall k :: 0 <= k < |NewOrder(b)| ==> NewOrder(b)[k] in NewIds(b.infos)
    ensures forall k :: 0 <= k < |TriedOrder(b)| ==> TriedOrder(b)[k] in TriedIds(b.infos)
  {
    forall k | 0 <= k < |NewOrder(b)| ensures NewOrder(b)[k] in NewIds(b.infos) {
      AscendingMember(NewIds(b.infos), b.idCount, k);
    }
    forall k | 0 <= k < |TriedOrder(b)| ensures TriedOrder(b)[k] in TriedIds(b.infos) {
      AscendingMember(TriedIds(b.infos), b.idCount, k);
    }
  }

  /** What is written. */
  function Saved(key: Key, b: Book): Image {
    OrdersAreEntries(b);
    Image(1, 32, key, b.nNew, b.nTried, FlipBit30(NEW_BUCKET_COUNT),
          Records(b.infos, NewOrder(b)) + Records(b.infos, TriedOrder(b)),
          PositionsFrom(NewIds(b.infos), b.newTable, 0))
  }

  // Reading back: the numbering.

  /** The entry that gets number `k`. */
  function Order(b: Book): seq<int> { NewOrder(b) + TriedOrder(b) }

  lemma RankOf(b: Book, k: int)
    requires 0 <= k < |Order(b)|
    ensures Order(b)[k] in b.infos && Rank(b, Order(b)[k]) == k
    ensures b.infos[Order(b)[k]].inTried <==> |NewOrder(b)| <= k
  {
    if k < |NewOrder(b)| {
      AscendingMember(NewIds(b.infos), b.idCount, k);
    } else {
      AscendingMember(TriedIds(b.infos), b.idCount, k - |NewOrder(b)|);
    }
  }

  lemma RankAt(b: Book, id: int)
    requires id in b.infos && 0 <= id < b.idCount
    ensures 0 <= Rank(b, id) < |Order(b)| && Order(b)[Rank(b, id)] == id
    ensures b.infos[id].inTried <==> |NewOrder(b)| <= Rank(b, id)
  {
    if b.infos[id].inTried {
      AscendingAt(TriedIds(b.infos), b.idCount, id);
    } else {
      AscendingAt(NewIds(b.infos), b.idCount, id);
    }
  }

  lemma OrderSizes(h: Hashes, key: Key, b: Book)
    requires Consistent(h, key, b, {}, 0)
    ensures |NewOrder(b)| == b.nNew && |TriedOrder(b)| == b.nTried
  {
    AscendingSize(NewIds(b.infos), b.idCount);
    AscendingSize(TriedIds(b.infos), b.idCount);
  }

  /** Entry `k` of the image is that of the `k`-th entry in order. */
  lemma SavedEntry(key: Key, b: Book, k: int)
    requires 0 <= k < |Order(b)|
    ensures |Saved(key, b).entries| == |Order(b)| && Order(b)[k] in b.infos
    ensures Saved(key, b).entries[k] == Stored(b.infos[Order(b)[k]])
  {
    RankOf(b, k);
  }

  lemma SavedDistinct(h: Hashes, key: Key, b: Book)
    requires Consistent(h, key, b, {}, 0)
    ensures DistinctAddresses(Saved(key, b).entries) && |Saved(key, b).entries| == |Order(b)|
  {
    hide Saved, Consistent, Order;
    assert |Saved(key, b).entries| == |Order(b)| by { SavedSize(key, b); }
    var e := Saved(key, b).entries;
    forall i, j | 0 <= i < j < |e| ensures e[i].address.service.ip != e[j].address.service.ip {
      SavedEntry(key, b, i);
      SavedEntry(key, b, j);
      RankOf(b, i);
      RankOf(b, j);
      SameIpSameId(h, key, b, Order(b)[i], Order(b)[j]);
    }
  }

  lemma SavedSize(key: Key, b: Book)
    ensures |Saved(key, b).entries| == |Order(b)|
  {
  }

  lemma SameIpSameId(h: Hashes, key: Key, b: Book, i: int, j: int)
    requires Consistent(h, key, b, {}, 0) && i in b.infos && j in b.infos
    ensures b.infos[i].Ip() == b.infos[j].Ip() ==> i == j
  {
  }

  // Reading back: the entries.

  /** Ids and the random order are the first `n` numbers. */
  ghost predicate Numbered(b: Book, n: int) {
    && b.idCount == n && |b.random| == n
    && (forall k :: k in b.infos <==> 0 <= k < n)
    && (forall k :: 0 <= k < n ==> b.random[k] == k)
  }

  lemma LoadNewNumbered(h: Hashes, key: Key, records: seq<Record>)
    ensures var b := LoadNew(h, key, true, records);
      && Numbered(b, |records|) && b.newTable == map[] && b.triedTable == map[] && b.nTried == 0 && b.nNew == |records|
      && (forall k :: 0 <= k < |records| ==> b.infos[k] == Restored(records[k], k))
  {
    if records != [] {
      var n := |records| - 1;
      LoadNewNumbered(h, key, records[..n]);
    }
  }

  predicate DistinctSlots(h: Hashes, key: Key, records: seq<Record>) {
    forall i, j :: 0 <= i < j < |records| ==>
      TriedSlot(h, key, records[i].address.service) != TriedSlot(h, key, records[j].address.service)
  }

  /** `c` is `b` with entries for all `records`, in the tried table. */
  ghost predicate TriedLoaded(h: Hashes, key: Key, b: Book, n: int, records: seq<Record>, c: Book) {
    && Numbered(c, n + |records|) && c.newTable == b.newTable && c.nNew == b.nNew && c.nTried == |records|
    && (forall k :: 0 <= k < n && k in b.infos ==> k in c.infos && c.infos[k] == b.infos[k])
    && (forall k :: n <= k < n + |records| ==>
          k in c.infos && c.infos[k] == Restored(records[k - n], k).(inTried := true))
    && (forall s :: s in c.triedTable ==>
          exists k :: 0 <= k < |records| && s == TriedSlot(h, key, records[k].address.service))
  }

  lemma TriedLoadedStep(h: Hashes, key: Key, b: Book, n: int, records: seq<Record>, r: Record, c: Book, d: Book)
    requires TriedLoaded(h, key, b, n, records, c) && n >= 0
    requires Numbered(d, n + |records| + 1) && d.newTable == c.newTable && d.nNew == c.nNew && d.nTried == c.nTried + 1
    requires forall k :: k in c.infos ==> k in d.infos && d.infos[k] == c.infos[k]
    requires d.infos[n + |records|] == Restored(r, n + |records|).(inTried := true)
    requires d.triedTable == c.triedTable[TriedSlot(h, key, r.address.service) := n + |records|]
    ensures TriedLoaded(h, key, b, n, records + [r], d)
  {
    hide TriedSlot;
    var all := records + [r];
    forall s | s in d.triedTable
      ensures exists k :: 0 <= k < |all| && s == TriedSlot(h, key, all[k].address.service)
    {
      if s in c.triedTable && s != TriedSlot(h, key, r.address.service) {
        var k :| 0 <= k < |records| && s == TriedSlot(h, key, records[k].address.service);
        assert all[k] == records[k];
      } else {
        assert all[|records|] == r;
      }
    }
  }

  /** No entry of distinct tried slots is lost. */
  lemma LoadTriedNumbered(h: Hashes, key: Key, b: Book, n: int, records: seq<Record>)
    requires Numbered(b, n) && n >= 0 && b.triedTable == map[] && b.nTried == 0 && DistinctSlots(h, key, records)
    ensures TriedLoaded(h, key, b, n, records, LoadTried(h, key, b, records))
  {
    hide TriedSlot, TriedStep;
    if records != [] {
      var m := |records| - 1;
      LoadTriedNumbered(h, key, b, n, records[..m]);
      var c := LoadTried(h, key, b, records[..m]);
      LoadTriedStep(h, key, c, n + m, records[m]);
      assert records == records[..m] + [records[m]];
      TriedLoadedStep(h, key, b, n, records[..m], records[m], c, TriedStep(h, key, c, records[m]));
    }
  }

  lemma LoadTriedStep(h: Hashes, key: Key, b: Book, n: int, r: Record)
    requires Numbered(b, n) && n >= 0 && TriedSlot(h, key, r.address.service) !in b.triedTable
    ensures var c := TriedStep(h, key, b, r);
      && Numbered(c, n + 1) && c.newTable == b.newTable && c.nNew == b.nNew && c.nTried == b.nTried + 1
      && (forall k :: k in b.infos ==> c.infos[k] == b.infos[k])
      && c.infos[n] == Restored(r, n).(inTried := true)
      && c.triedTable == b.triedTable[TriedSlot(h, key, r.address.service) := n]
  {
    hide TriedSlot;
  }

  /** What an entry is once read back, but for its references. */
  function Plain(info: Info, k: int): Info {
    info.(lastTry := 0, lastCountAttempt := 0, refCount := 0, randomPos := k)
  }

  ghost predicate EntriesRestored(b: Book, c: Book) {
    && Numbered(c, |Order(b)|) && c.nNew == b.nNew && c.nTried == b.nTried
    && (forall k :: 0 <= k < |Order(b)| ==>
          && k in c.infos && Order(b)[k] in b.infos
          && c.infos[k].(refCount := 0) == Plain(b.infos[Order(b)[k]], k))
  }

  lemma TriedSlotsDistinct(h: Hashes, key: Key, b: Book)
    requires Consistent(h, key, b, {}, 0)
    ensures DistinctSlots(h, key, Saved(key, b).entries[|NewOrder(b)|..])
  {
    hide Saved, Consistent, TriedSlot;
    SavedSize(key, b);
    var n := |NewOrder(b)|;
    var e := Saved(key, b).entries[n..];
    forall i, j | 0 <= i < j < |e|
      ensures TriedSlot(h, key, e[i].address.service) != TriedSlot(h, key, e[j].address.service)
    {
      SavedEntry(key, b, n + i);
      SavedEntry(key, b, n + j);
      RankOf(b, n + i);
      RankOf(b, n + j);
      SameSlotSameId(h, key, b, Order(b)[n + i], Order(b)[n + j]);
    }
  }

  lemma SameSlotSameId(h: Hashes, key: Key, b: Book, i: int, j: int)
    requires Consistent(h, key, b, {}, 0) && i in b.infos && j in b.infos && b.infos[i].inTried && b.infos[j].inTried
    ensures TriedSlot(h, key, b.infos[i].address.service) == TriedSlot(h, key, b.infos[j].address.service) ==> i == j
  {
    hide TriedSlot;
  }

  lemma SavedHeader(key: Key, b: Book)
    ensures var image := Saved(key, b);
      && image.keySize == 32 && image.key == key && image.nNew == b.nNew && image.nTried == b.nTried
      && Usable(image) && Buckets(image) == NEW_BUCKET_COUNT
      && image.positions == PositionsFrom(NewIds(b.infos), b.newTable, 0)
  {
    FlipTwice(NEW_BUCKET_COUNT);
  }

  lemma EntriesAreRestored(h: Hashes, key: Key, b: Book)
    requires Consistent(h, key, b, {}, 0)
    ensures |Saved(key, b).entries| == NonNegative(b.nNew) + NonNegative(b.nTried)
    ensures NonNegative(b.nNew) + NonNegative(b.nTried) == b.nNew + b.nTried
    ensures EntriesRestored(b, LoadEntries(h, Saved(key, b))) && LoadEntries(h, Saved(key, b)).newTable == map[]
    ensures var c := LoadEntries(h, Saved(key, b)); forall k :: k in c.infos ==> c.infos[k].refCount == 0
  {
    hide Saved, Consistent, Usable, Buckets, LoadNew, LoadTried, DistinctSlots, Order, NewOrder, TriedOrder,
      PositionsFrom;
    var image := Saved(key, b);
    SavedHeader(key, b);
    OrderSizes(h, key, b);
    SavedSize(key, b);
    OrderSplit(b);
    TriedSlotsDistinct(h, key, b);
    var n, e := b.nNew, image.entries;
    LoadNewNumbered(h, key, e[..n]);
    var m := LoadNew(h, key, true, e[..n]);
    assert m == m.(idCount := n, nNew := n);
    assert e[n..n + b.nTried] == e[n..];
    LoadTriedNumbered(h, key, m, n, e[n..]);
    var c := LoadTried(h, key, m, e[n..]);
    assert c == LoadEntries(h, image);
    forall k | 0 <= k < |Order(b)|
      ensures k in c.infos && Order(b)[k] in b.infos && c.infos[k].(refCount := 0) == Plain(b.infos[Order(b)[k]], k)
    {
      SavedEntry(key, b, k);
      RankOf(b, k);
      if k >= n {
        assert e[n..][k - n] == e[k];
      }
    }
  }

  lemma OrderSplit(b: Book)
    ensures |Order(b)| == |NewOrder(b)| + |TriedOrder(b)|
  {
  }

  // Reading back: the new table.

  predicate Before(s: Slot, bucket: int, pos: int) {
    s.bucket < bucket || (s.bucket == bucket && s.pos < pos)
  }

  /** The new table of `c` holds the slots of `b` before a position, renumbered. */
  ghost predicate Filled(b: Book, c: Book, bucket: int, pos: int) {
    && (forall s :: s in c.newTable <==> s in b.newTable && Before(s, bucket, pos))
    && (forall s :: s in c.newTable ==> b.newTable[s] in b.infos && c.newTable[s] == Rank(b, b.newTable[s]))
  }

  /** Everything about `c` while the bucket lists are read. */
  ghost predicate Refiling(b: Book, c: Book, bucket: int, pos: int) {
    && EntriesRestored(b, c)
    && Filled(b, c, bucket, pos)
    && RefsOk(c.infos, c.newTable, c.infos.Keys)
  }

  /** While a slot is not yet read, its entry has fewer references than it will have. */
  lemma RoomForReference(h: Hashes, key: Key, b: Book, c: Book, bucket: int, pos: int)
    requires Consistent(h, key, b, {}, 0) && Refiling(b, c, bucket, pos) && Slot(bucket, pos) in b.newTable
    ensures var id := b.newTable[Slot(bucket, pos)];
      && id in b.infos && !b.infos[id].inTried && Rank(b, id) in c.infos
      && Order(b)[Rank(b, id)] == id
      && c.infos[Rank(b, id)].refCount < NEW_BUCKETS_PER_ADDRESS
  {
    hide Consistent, Rank, Order, NewOrder, NewPos, TriedSlot, Filled, EntriesRestored, RefsOk, SlotsOf;
    var s := Slot(bucket, pos);
    SlotOccupant(h, key, b, {}, 0, s);
    var id := b.newTable[s];
    IdsAreNatural(h, key, b, {}, 0, id);
    SlotRange(h, key, b, {}, 0, id);
    RankAt(b, id);
    RestoredAt(b, c, Rank(b, id));
    RefsAre(h, key, b, id);
    RefsCounted(c, Rank(b, id));
    FewerSlots(h, key, b, c, bucket, pos, id);
  }

  lemma RestoredAt(b: Book, c: Book, k: int)
    requires EntriesRestored(b, c) && 0 <= k < |Order(b)|
    ensures k in c.infos
  {
    hide Order;
  }

  lemma RefsAre(h: Hashes, key: Key, b: Book, id: int)
    requires Consistent(h, key, b, {}, 0) && id in b.infos
    ensures b.infos[id].refCount == |SlotsOf(b.newTable, id)|
  {
    hide SlotsOf;
  }

  lemma RefsCounted(c: Book, id: int)
    requires RefsOk(c.infos, c.newTable, c.infos.Keys) && id in c.infos
    ensures c.infos[id].refCount == |SlotsOf(c.newTable, id)|
  {
    hide SlotsOf;
  }

  /** The slots read so far that an entry has are some of its slots, and not the next one. */
  lemma FewerSlots(h: Hashes, key: Key, b: Book, c: Book, bucket: int, pos: int, id: int)
    requires Consistent(h, key, b, {}, 0) && Filled(b, c, bucket, pos) && Slot(bucket, pos) in b.newTable
    requires id in b.infos && b.newTable[Slot(bucket, pos)] == id
    ensures |SlotsOf(c.newTable, Rank(b, id))| < |SlotsOf(b.newTable, id)|
  {
    hide Consistent, Rank, Order, NewPos, TriedSlot;
    var s := Slot(bucket, pos);
    forall t | t in SlotsOf(c.newTable, Rank(b, id)) ensures t in SlotsOf(b.newTable, id) {
      RankInjective(h, key, b, id, b.newTable[t]);
    }
    ProperSubsetSize(SlotsOf(c.newTable, Rank(b, id)), SlotsOf(b.newTable, id), s);
  }

  lemma RankInjective(h: Hashes, key: Key, b: Book, id: int, other: int)
    requires Consistent(h, key, b, {}, 0) && id in b.infos && other in b.infos && Rank(b, id) == Rank(b, other)
    ensures id == other
  {
    hide Consistent, Rank, Order, NewOrder;
    IdsAreNatural(h, key, b, {}, 0, id);
    IdsAreNatural(h, key, b, {}, 0, other);
    RankAt(b, id);
    RankAt(b, other);
  }

  lemma RefileFilled(b: Book, c: Book, bucket: int, pos: int)
    requires Filled(b, c, bucket, pos) && Slot(bucket, pos) in b.newTable && b.newTable[Slot(bucket, pos)] in b.infos
    ensures var s := Slot(bucket, pos);
      && s !in c.newTable
      && Filled(b, c.(newTable := c.newTable[s := Rank(b, b.newTable[s])]), bucket, pos + 1)
  {
    hide Rank;
  }

  /** Reading the index of the next occupied slot fills that slot. */
  lemma RefileStep(h: Hashes, key: Key, b: Book, c: Book, bucket: int, pos: int)
    requires Consistent(h, key, b, {}, 0) && Refiling(b, c, bucket, pos) && Slot(bucket, pos) in b.newTable
    ensures b.newTable[Slot(bucket, pos)] in b.infos
    ensures var k := Rank(b, b.newTable[Slot(bucket, pos)]);
      Refiling(b, IndexStep(h, key, true, b.nNew, c, bucket, k), bucket, pos + 1)
  {
    hide Consistent, RefsOk, Rank, NewPos, Order, NewOrder, Filled;
    var s := Slot(bucket, pos);
    RoomForReference(h, key, b, c, bucket, pos);
    var id := b.newTable[s];
    var k := Rank(b, id);
    SlotOccupant(h, key, b, {}, 0, s);
    IdsAreNatural(h, key, b, {}, 0, id);
    RankAt(b, id);
    OrderSizes(h, key, b);
    assert c.infos[k].address == b.infos[id].address;
    RefileFilled(b, c, bucket, pos);
    AddSlot(c.infos, c.newTable, c.infos.Keys, k, s);
    var d := Referenced(c, k, s);
    assert d == IndexStep(h, key, true, b.nNew, c, bucket, k);
    assert d.infos.Keys == c.infos.Keys;
    RefsLoosen(d.infos, d.newTable, c.infos.Keys - {k}, d.infos.Keys);
    FilledNewTable(b, c.(newTable := c.newTable[s := k]), d, bucket, pos + 1);
  }

  lemma FilledNewTable(b: Book, c: Book, d: Book, bucket: int, pos: int)
    requires Filled(b, c, bucket, pos) && c.newTable == d.newTable
    ensures Filled(b, d, bucket, pos)
  {
  }

  lemma RefsLoosen(infos: map<int, Info>, table: Table, pending: set<int>, pending': set<int>)
    requires RefsOk(infos, table, pending) && pending <= pending'
    ensures RefsOk(infos, table, pending')
  {
  }

  lemma RefileSkip(b: Book, c: Book, bucket: int, pos: int)
    requires Refiling(b, c, bucket, pos) && Slot(bucket, pos) !in b.newTable
    ensures Refiling(b, c, bucket, pos + 1)
  {
    hide EntriesRestored, RefsOk, Rank;
    forall s | s in b.newTable ensures Before(s, bucket, pos) <==> Before(s, bucket, pos + 1) {
      assert s == Slot(s.bucket, s.pos);
    }
  }

  lemma RefileNextBucket(h: Hashes, key: Key, b: Book, c: Book, bucket: int)
    requires Consistent(h, key, b, {}, 0) && Refiling(b, c, bucket, BUCKET_SIZE)
    ensures Refiling(b, c, bucket + 1, 0)
  {
    hide EntriesRestored, RefsOk, Rank;
    forall s | s in b.newTable ensures Before(s, bucket, BUCKET_SIZE) <==> Before(s, bucket + 1, 0) {
      assert InTable(s, NEW_BUCKET_COUNT);
    }
  }

  lemma RanksAppend(p: set<int>, ids: seq<int>, id: int)
    ensures Ranks(p, ids + [id]) == Ranks(p, ids) + [|Ascending(p, id)|]
  {
  }

  lemma RefileBucket(h: Hashes, key: Key, b: Book, c: Book, bucket: int, n: nat)
    requires Consistent(h, key, b, {}, 0) && Refiling(b, c, bucket, 0)
    ensures var ranks := Ranks(NewIds(b.infos), BucketIds(b.newTable, bucket, n));
      Refiling(b, LoadIndexes(h, key, true, b.nNew, c, bucket, ranks), bucket, n)
  {
    hide Consistent, Refiling, IndexStep, Ranks;
    var p := NewIds(b.infos);
    if n == 0 {
      assert Ranks(p, []) == [];
    } else {
      RefileBucket(h, key, b, c, bucket, n - 1);
      var s, ids := Slot(bucket, n - 1), BucketIds(b.newTable, bucket, n - 1);
      var d := LoadIndexes(h, key, true, b.nNew, c, bucket, Ranks(p, ids));
      if s in b.newTable {
        var r := |Ascending(p, b.newTable[s])|;
        RanksAppend(p, ids, b.newTable[s]);
        assert (Ranks(p, ids) + [r])[..|ids|] == Ranks(p, ids);
        RefileStep(h, key, b, d, bucket, n - 1);
        SlotOccupant(h, key, b, {}, 0, s);
      } else {
        assert ids + [] == ids;
        RefileSkip(b, d, bucket, n - 1);
      }
    }
  }

  lemma RefileAll(h: Hashes, key: Key, b: Book, c: Book, bucket: int)
    requires Consistent(h, key, b, {}, 0) && Refiling(b, c, bucket, 0) && 0 <= bucket <= NEW_BUCKET_COUNT
    ensures var positions := PositionsFrom(NewIds(b.infos), b.newTable, bucket);
      var r := LoadBuckets(h, key, true, b.nNew, c, bucket, NEW_BUCKET_COUNT, positions);
      r.Some? && Refiling(b, r.value, NEW_BUCKET_COUNT, 0)
    decreases NEW_BUCKET_COUNT - bucket
  {
    hide Consistent, Refiling, LoadIndexes, Ranks, BucketIds;
    if bucket < NEW_BUCKET_COUNT {
      var p := NewIds(b.infos);
      var ids := BucketIds(b.newTable, bucket, BUCKET_SIZE);
      var list, rest := Ranks(p, ids), PositionsFrom(p, b.newTable, bucket + 1);
      var stream := PositionsFrom(p, b.newTable, bucket);
      assert stream == [|ids|] + list + rest;
      assert stream[1..1 + |ids|] == list && stream[1 + |ids|..] == rest;
      RefileBucket(h, key, b, c, bucket, BUCKET_SIZE);
      var d := LoadIndexes(h, key, true, b.nNew, c, bucket, list);
      RefileNextBucket(h, key, b, d, bucket);
      RefileAll(h, key, b, d, bucket + 1);
    }
  }

  // The counts that are read are within bounds.

  /** The first `n` slots of a bucket. */
  function Row(bucket: int, n: nat): (slots: set<Slot>)
    ensures |slots| <= n
    ensures forall s: Slot :: s.bucket == bucket && 0 <= s.pos < n ==> s in slots
  {
    if n == 0 then {} else Row(bucket, n - 1) + {Slot(bucket, n - 1)}
  }

  function Rows(buckets: nat): (slots: set<Slot>)
    ensures |slots| <= buckets * BUCKET_SIZE
    ensures forall s: Slot :: InTable(s, buckets) ==> s in slots
  {
    if buckets == 0 then {} else Rows(buckets - 1) + Row(buckets - 1, BUCKET_SIZE)
  }

  lemma TableSize(t: Table, buckets: nat)
    requires forall s :: s in t ==> InTable(s, buckets)
    ensures |t.Keys| <= buckets * BUCKET_SIZE
  {
    SubsetSize(t.Keys, Rows(buckets));
  }

  /** Ids that all have a slot are no more than the slots. */
  lemma FewerIds(ids: set<int>, t: Table)
    requires forall id :: id in ids ==> SlotsOf(t, id) != {}
    ensures |ids| <= |t.Keys|
  {
    if ids != {} {
      var id := AnyOf(ids);
      var rest := map s | s in t && t[s] != id :: t[s];
      forall i | i in ids - {id} ensures SlotsOf(rest, i) != {} {
        assert SlotsOf(rest, i) == SlotsOf(t, i);
      }
      FewerIds(ids - {id}, rest);
      var s :| s in SlotsOf(t, id);
      SubsetSize(rest.Keys, t.Keys - {s});
    }
  }

  lemma SavedHeaderOk(h: Hashes, key: Key, b: Book)
    requires Consistent(h, key, b, {}, 0)
    ensures HeaderOk(Saved(key, b))
  {
    hide Saved;
    SavedHeader(key, b);
    forall id | id in NewIds(b.infos) ensures SlotsOf(b.newTable, id) != {} {
      SlotRange(h, key, b, {}, 0, id);
    }
    FewerIds(NewIds(b.infos), b.newTable);
    TableSize(b.newTable, NEW_BUCKET_COUNT);
    forall id | id in TriedIds(b.infos) ensures SlotsOf(b.triedTable, id) != {} {
      assert TriedSlot(h, key, b.infos[id].address.service) in SlotsOf(b.triedTable, id);
    }
    FewerIds(TriedIds(b.infos), b.triedTable);
    TableSize(b.triedTable, TRIED_BUCKET_COUNT);
  }

  // The round trip.

  /** Nothing is pruned when every entry has a place. */
  lemma PrunedNothing(b: Book, low: int, high: int)
    requires RandomOk(b.infos, b.random)
    requires forall id :: id in b.infos ==> b.infos[id].inTried || b.infos[id].refCount != 0
    ensures Pruned(b, low, high) == b
    decreases high - low
  {
    hide RandomOk;
    if low < high {
      PrunedNothing(b, low, high - 1);
    }
  }

  /** Everything that persists is in `c` what it was in `b`, under the new ids. */
  ghost predicate Restores(b: Book, c: Book) {
    && c.idCount == |Order(b)| && c.nNew == b.nNew && c.nTried == b.nTried
    && (forall id :: id in b.infos ==>
          var k := Rank(b, id);
          && k in c.infos
          && c.infos[k] == b.infos[id].(lastTry := 0, lastCountAttempt := 0, randomPos := k))
    && (forall k :: k in c.infos ==> exists id :: id in b.infos && Rank(b, id) == k)
    && SameTable(b, b.newTable, c.newTable)
    && SameTable(b, b.triedTable, c.triedTable)
    && c.addrs.Keys == b.addrs.Keys
    && (forall a :: a in b.addrs && b.addrs[a] in b.infos ==> c.addrs[a] == Rank(b, b.addrs[a]))
  }

  /** The same slots are taken, by the same entries under their new ids. */
  ghost predicate SameTable(b: Book, t: Table, u: Table) {
    && u.Keys == t.Keys
    && (forall s :: s in t ==> t[s] in b.infos && u[s] == Rank(b, t[s]))
  }

  lemma RefiledReferences(h: Hashes, key: Key, b: Book, c: Book, id: int)
    requires Consistent(h, key, b, {}, 0) && Refiling(b, c, NEW_BUCKET_COUNT, 0) && id in b.infos
    ensures Rank(b, id) in c.infos && Order(b)[Rank(b, id)] == id
    ensures c.infos[Rank(b, id)].refCount == b.infos[id].refCount
  {
    hide Consistent, Rank, Order, NewOrder, Filled, EntriesRestored, RefsOk, SlotsOf;
    IdsAreNatural(h, key, b, {}, 0, id);
    RankAt(b, id);
    RestoredAt(b, c, Rank(b, id));
    RefsAre(h, key, b, id);
    RefsCounted(c, Rank(b, id));
    RefiledSlots(h, key, b, c, id);
  }

  lemma RefiledSlots(h: Hashes, key: Key, b: Book, c: Book, id: int)
    requires Consistent(h, key, b, {}, 0) && Filled(b, c, NEW_BUCKET_COUNT, 0) && id in b.infos
    ensures SlotsOf(c.newTable, Rank(b, id)) == SlotsOf(b.newTable, id)
  {
    hide Consistent, Rank, Order;
    forall t | t in b.newTable
      ensures t in c.newTable && (c.newTable[t] == Rank(b, id) <==> b.newTable[t] == id)
    {
      TableInRange(h, key, b, t);
      if Rank(b, b.newTable[t]) == Rank(b, id) {
        RankInjective(h, key, b, id, b.newTable[t]);
      }
    }
  }

  lemma TableInRange(h: Hashes, key: Key, b: Book, s: Slot)
    requires Consistent(h, key, b, {}, 0) && s in b.newTable
    ensures InTable(s, NEW_BUCKET_COUNT) && b.newTable[s] in b.infos
  {
  }

  /** Entries and the new table are back once all lists are read. */
  lemma RefiledEntry(h: Hashes, key: Key, b: Book, c: Book, id: int)
    requires Consistent(h, key, b, {}, 0) && Refiling(b, c, NEW_BUCKET_COUNT, 0) && id in b.infos
    ensures var k := Rank(b, id);
      k in c.infos && c.infos[k] == b.infos[id].(lastTry := 0, lastCountAttempt := 0, randomPos := k)
  {
    hide Consistent, RefsOk, Filled, Rank, Order;
    RefiledReferences(h, key, b, c, id);
    IdsAreNatural(h, key, b, {}, 0, id);
    RankAt(b, id);
  }

  lemma RefiledNew(h: Hashes, key: Key, b: Book, c: Book)
    requires Consistent(h, key, b, {}, 0) && Refiling(b, c, NEW_BUCKET_COUNT, 0)
    ensures SameTable(b, b.newTable, c.newTable)
  {
    hide EntriesRestored, RefsOk, Rank, RandomOk, AddrsOk, TriedOk, CountsOk, NewPos;
    forall s | s in b.newTable ensures Before(s, NEW_BUCKET_COUNT, 0) && b.newTable[s] in b.infos {
      assert InTable(s, NEW_BUCKET_COUNT);
    }
  }

  lemma RefiledHasPlaces(h: Hashes, key: Key, b: Book, c: Book)
    requires Consistent(h, key, b, {}, 0) && Refiling(b, c, NEW_BUCKET_COUNT, 0)
    ensures forall k :: k in c.infos ==> exists id :: id in b.infos && Rank(b, id) == k
    ensures forall k :: k in c.infos ==> c.infos[k].inTried || c.infos[k].refCount != 0
  {
    hide Consistent, RefsOk, Filled, Rank, Order;
    forall k | k in c.infos
      ensures exists id :: id in b.infos && Rank(b, id) == k
      ensures c.infos[k].inTried || c.infos[k].refCount != 0
    {
      RankOf(b, k);
      var id := Order(b)[k];
      assert id in b.infos && Rank(b, id) == k;
      RefiledEntry(h, key, b, c, id);
      if !b.infos[id].inTried {
        SlotRange(h, key, b, {}, 0, id);
      }
    }
  }

  /** The tried table and the address index follow from the entries. */
  lemma RestoredIndexes(h: Hashes, key: Key, b: Book, c: Book)
    requires Consistent(h, key, b, {}, 0) && Consistent(h, key, c, {}, 0)
    requires forall id :: id in b.infos ==>
      var k := Rank(b, id);
      k in c.infos && c.infos[k] == b.infos[id].(lastTry := 0, lastCountAttempt := 0, randomPos := k)
    requires forall k :: k in c.infos ==> exists id :: id in b.infos && Rank(b, id) == k
    ensures SameTable(b, b.triedTable, c.triedTable)
    ensures c.addrs.Keys == b.addrs.Keys
    ensures forall a :: a in b.addrs && b.addrs[a] in b.infos ==> c.addrs[a] == Rank(b, b.addrs[a])
  {
    hide Rank, TriedSlot, RandomOk, NewOk, RefsOk, CountsOk;
    forall s | s in c.triedTable ensures s in b.triedTable {
      var k := c.triedTable[s];
      assert k in c.infos;
      var id :| id in b.infos && Rank(b, id) == k;
      assert s == TriedSlot(h, key, b.infos[id].address.service);
    }
    forall s | s in b.triedTable
      ensures s in c.triedTable && b.triedTable[s] in b.infos && c.triedTable[s] == Rank(b, b.triedTable[s])
    {
      var id := b.triedTable[s];
      assert s == TriedSlot(h, key, c.infos[Rank(b, id)].address.service);
    }
    forall a | a in c.addrs ensures a in b.addrs {
      var k := c.addrs[a];
      assert k in c.infos;
      var id :| id in b.infos && Rank(b, id) == k;
      assert b.infos[id].Ip() == a;
    }
    forall a | a in b.addrs ensures a in c.addrs && c.addrs[a] == Rank(b, b.addrs[a]) {
      assert c.infos[Rank(b, b.addrs[a])].Ip() == a;
    }
  }

  lemma LoadedWhenFull(h: Hashes, key: Key, b: Book, c: Book)
    requires var image := Saved(key, b);
      && HeaderOk(image) && |image.entries| >= NonNegative(image.nNew) + NonNegative(image.nTried)
      && LoadBuckets(h, key, true, b.nNew, LoadEntries(h, image), 0, NEW_BUCKET_COUNT, image.positions) == Some(c)
    requires forall k :: k in c.infos ==> c.infos[k].inTried || c.infos[k].refCount != 0
    requires RandomOk(c.infos, c.random)
    ensures Loaded(h, Saved(key, b)) == Some(c)
  {
    hide Saved, LoadEntries, LoadBuckets, RandomOk, Pruned, HeaderOk, Usable, Buckets, PositionsFrom;
    SavedHeader(key, b);
    PrunedNothing(c, Lowest(Saved(key, b)), c.idCount);
  }

  /**
   * Writing a consistent manager and reading it back succeeds, loses nothing that is meant to
   * persist, and yields a consistent manager again.
   */
  lemma RoundTrip(h: Hashes, key: Key, b: Book)
    requires Consistent(h, key, b, {}, 0)
    ensures Loaded(h, Saved(key, b)).Some?
    ensures Restores(b, Loaded(h, Saved(key, b)).value)
    ensures Consistent(h, key, Loaded(h, Saved(key, b)).value, {}, 0)
  {
    hide Consistent, Saved, LoadEntries, LoadBuckets, RandomOk, HeaderOk, PositionsFrom, Filled, RefsOk,
      EntriesRestored, Rank, DistinctAddresses, Loaded, Order;
    var image := Saved(key, b);
    SavedHeader(key, b);
    SavedHeaderOk(h, key, b);
    EntriesAreRestored(h, key, b);
    var e := LoadEntries(h, image);
    LoadEntriesOrdered(h, image);
    StartRefiling(h, key, b, e);
    RefileAll(h, key, b, e, 0);
    LoadBucketsOrdered(h, key, true, b.nNew, e, 0, NEW_BUCKET_COUNT, image.positions);
    var c := LoadBuckets(h, key, true, b.nNew, e, 0, NEW_BUCKET_COUNT, image.positions).value;
    RefiledHasPlaces(h, key, b, c);
    LoadedWhenFull(h, key, b, c);
    SavedDistinct(h, key, b);
    assert image.entries[..b.nNew + b.nTried] == image.entries;
    OrderSizes(h, key, b);
    DistinctIsConsistent(h, image);
    forall id | id in b.infos
      ensures var k := Rank(b, id);
        k in c.infos && c.infos[k] == b.infos[id].(lastTry := 0, lastCountAttempt := 0, randomPos := k)
    {
      RefiledEntry(h, key, b, c, id);
    }
    RestoredIndexes(h, key, b, c);
    RefiledNew(h, key, b, c);
    RefiledCounts(b, c);
  }

  lemma StartRefiling(h: Hashes, key: Key, b: Book, c: Book)
    requires Consistent(h, key, b, {}, 0) && EntriesRestored(b, c) && c.newTable == map[]
    requires forall k :: k in c.infos ==> c.infos[k].refCount == 0
    ensures Refiling(b, c, 0, 0)
  {
    hide EntriesRestored, RandomOk, AddrsOk, TriedOk, CountsOk, Rank, NewPos;
  }

  lemma RefiledCounts(b: Book, c: Book)
    requires EntriesRestored(b, c)
    ensures c.idCount == |Order(b)| && c.nNew == b.nNew && c.nTried == b.nTried
  {
  }
}
