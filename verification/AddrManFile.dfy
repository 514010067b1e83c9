/**
 * Writing the address manager to a stream and rebuilding it from one.
 */
module AddrManFile {
  import opened AddrManModel
  import opened AddrManImage
  import opened AddrManRoundTrip
  import opened AddrMan
  import opened Common

  // Writing.

  lemma ReferencedMeansNew(h: Hashes, key: Key, b: Book, id: int)
    requires Consistent(h, key, b, {}, 0) && id in b.infos
    ensures b.infos[id].refCount != 0 <==> !b.infos[id].inTried
    ensures 0 <= id < b.idCount
  {
    if b.infos[id].inTried {
      assert SlotsOf(b.newTable, id) == {};
    } else {
      SlotRange(h, key, b, {}, 0, id);
    }
  }

  lemma RecordsAppend(infos: map<int, Info>, ids: seq<int>, id: int)
    requires forall k :: 0 <= k < |ids| ==> ids[k] in infos
    requires id in infos
    ensures Records(infos, ids + [id]) == Records(infos, ids) + [Stored(infos[id])]
  {
  }

  lemma AscendingEntries(infos: map<int, Info>, p: set<int>, n: int)
    requires p <= infos.Keys
    ensures forall k :: 0 <= k < |Ascending(p, n)| ==> Ascending(p, n)[k] in infos
  {
    forall k | 0 <= k < |Ascending(p, n)| ensures Ascending(p, n)[k] in infos {
      AscendingMember(p, n, k);
    }
  }

  /** The entries of the new table in order of their ids, and the number of each. */
  method WriteNew(m: Manager) returns (entries: seq<Record>, numbers: map<int, int>)
    requires m.Holding({}, 0)
    ensures var b := m.Indexes();
      && (forall k :: 0 <= k < |NewOrder(b)| ==> NewOrder(b)[k] in b.infos)
      && entries == Records(b.infos, NewOrder(b))
      && (forall id :: id in NewIds(b.infos) ==> id in numbers && numbers[id] == |Ascending(NewIds(b.infos), id)|)
  {
    hide Consistent, Ascending, View;
    ghost var b := m.Indexes();
    ghost var p := NewIds(b.infos);
    entries, numbers := [], map[];
    AllBelow(m.hashes, m.key, b);
    var ids := 0;
    assert Ascending(p, 0) == [] by { AscendingZero(p); }
    for id := 0 to m.idCount
      invariant forall k :: 0 <= k < |Ascending(p, id)| ==> Ascending(p, id)[k] in b.infos
      invariant ids == |Ascending(p, id)| && entries == Records(b.infos, Ascending(p, id))
      invariant forall i :: i in p && i < id ==> i in numbers && numbers[i] == |Ascending(p, i)|
    {
      AscendingNext(p, id);
      AscendingEntries(b.infos, p, id);
      AscendingEntries(b.infos, p, id + 1);
      if id in m.mapInfo {
        ReferencedMeansNew(m.hashes, m.key, b, id);
        numbers := numbers[id := ids];
        if m.mapInfo[id].refCount != 0 {
          NotYetAll(m.hashes, m.key, b, id);
          assert ids != m.nNew;
          RecordsAppend(b.infos, Ascending(p, id), id);
          entries := entries + [Stored(m.mapInfo[id])];
          ids := ids + 1;
        }
      }
    }
  }

  lemma AscendingZero(p: set<int>)
    ensures Ascending(p, 0) == []
  {
  }

  lemma AscendingNext(p: set<int>, n: nat)
    ensures Ascending(p, n + 1) == if n in p then Ascending(p, n) + [n] else Ascending(p, n)
  {
    assert Ascending(p, n) + [] == Ascending(p, n);
  }

  lemma AllBelow(h: Hashes, key: Key, b: Book)
    requires Consistent(h, key, b, {}, 0)
    ensures forall id :: id in b.infos ==> 0 <= id < b.idCount
  {
  }

  /** An entry still to be written means that fewer than `nNew`, or `nTried`, are written so far. */
  lemma NotYetAll(h: Hashes, key: Key, b: Book, id: int)
    requires Consistent(h, key, b, {}, 0) && id in b.infos
    ensures !b.infos[id].inTried ==> |Ascending(NewIds(b.infos), id)| < b.nNew
    ensures b.infos[id].inTried ==> |Ascending(TriedIds(b.infos), id)| < b.nTried
  {
    OrderSizes(h, key, b);
    AllBelow(h, key, b);
    if b.infos[id].inTried {
      AscendingAt(TriedIds(b.infos), b.idCount, id);
    } else {
      AscendingAt(NewIds(b.infos), b.idCount, id);
    }
  }

  /** The entries of the tried table in order of their ids. */
  method WriteTried(m: Manager) returns (entries: seq<Record>)
    requires m.Holding({}, 0)
    ensures var b := m.Indexes();
      && (forall k :: 0 <= k < |TriedOrder(b)| ==> TriedOrder(b)[k] in b.infos)
      && entries == Records(b.infos, TriedOrder(b))
  {
    hide Consistent, Ascending, View;
    ghost var b := m.Indexes();
    ghost var p := TriedIds(b.infos);
    entries := [];
    var ids := 0;
    assert Ascending(p, 0) == [] by { AscendingZero(p); }
    for id := 0 to m.idCount
      invariant forall k :: 0 <= k < |Ascending(p, id)| ==> Ascending(p, id)[k] in b.infos
      invariant ids == |Ascending(p, id)| && entries == Records(b.infos, Ascending(p, id))
    {
      AscendingNext(p, id);
      AscendingEntries(b.infos, p, id);
      AscendingEntries(b.infos, p, id + 1);
      if id in m.mapInfo && m.mapInfo[id].inTried {
        NotYetAll(m.hashes, m.key, b, id);
        assert ids != m.nTried;
        RecordsAppend(b.infos, Ascending(p, id), id);
        entries := entries + [Stored(m.mapInfo[id])];
        ids := ids + 1;
      }
    }
  }

  /** How many slots of a bucket are taken. */
  method BucketSize(m: Manager, bucket: int) returns (size: int)
    requires m.Shape() && 0 <= bucket < NEW_BUCKET_COUNT
    ensures size == |BucketIds(View(m.vvNew), bucket, BUCKET_SIZE)|
  {
    size := 0;
    for i := 0 to BUCKET_SIZE
      invariant size == |BucketIds(View(m.vvNew), bucket, i)|
    {
      ViewAt(m.vvNew, Slot(bucket, i));
      if m.vvNew[bucket, i] != -1 {
        size := size + 1;
      }
    }
  }

  /** The numbers of the entries in a bucket. */
  method WriteBucket(m: Manager, bucket: int, numbers: map<int, int>) returns (list: seq<int>)
    requires m.Holding({}, 0) && 0 <= bucket < NEW_BUCKET_COUNT
    requires var p := NewIds(m.mapInfo); forall id :: id in p ==> id in numbers && numbers[id] == |Ascending(p, id)|
    ensures list == Ranks(NewIds(m.mapInfo), BucketIds(View(m.vvNew), bucket, BUCKET_SIZE))
  {
    hide Consistent, View, Ranks;
    ghost var b := m.Indexes();
    ghost var p := NewIds(b.infos);
    list := [];
    assert Ranks(p, []) == [];
    for i := 0 to BUCKET_SIZE
      invariant list == Ranks(p, BucketIds(b.newTable, bucket, i))
    {
      var s := Slot(bucket, i);
      ViewAt(m.vvNew, s);
      SlotOccupant(m.hashes, m.key, b, {}, 0, s);
      ghost var ids := BucketIds(b.newTable, bucket, i);
      if m.vvNew[bucket, i] != -1 {
        RanksAppend(p, ids, b.newTable[s]);
        list := list + [numbers[m.vvNew[bucket, i]]];
      } else {
        assert ids + [] == ids;
      }
    }
  }

  lemma PositionsNext(p: set<int>, t: Table, bucket: int, done: seq<int>)
    requires bucket < NEW_BUCKET_COUNT
    ensures var ids := BucketIds(t, bucket, BUCKET_SIZE);
      done + PositionsFrom(p, t, bucket) == done + [|ids|] + Ranks(p, ids) + PositionsFrom(p, t, bucket + 1)
  {
    hide Ranks, BucketIds;
  }

  lemma PositionsEnd(p: set<int>, t: Table, done: seq<int>)
    ensures done + PositionsFrom(p, t, NEW_BUCKET_COUNT) == done
  {
  }

  /** All bucket lists, each after its length. */
  method WriteBuckets(m: Manager, numbers: map<int, int>) returns (positions: seq<int>)
    requires m.Holding({}, 0)
    requires var p := NewIds(m.mapInfo); forall id :: id in p ==> id in numbers && numbers[id] == |Ascending(p, id)|
    ensures positions == PositionsFrom(NewIds(m.mapInfo), View(m.vvNew), 0)
  {
    hide Consistent, View, Ranks, BucketIds, Ascending, PositionsFrom;
    ghost var p, t := NewIds(m.mapInfo), View(m.vvNew);
    positions := [];
    for bucket := 0 to NEW_BUCKET_COUNT
      invariant positions + PositionsFrom(p, t, bucket) == PositionsFrom(p, t, 0)
    {
      var size := BucketSize(m, bucket);
      var list := WriteBucket(m, bucket, numbers);
      PositionsNext(p, t, bucket, positions);
      positions := positions + [size] + list;
    }
    PositionsEnd(p, t, positions);
  }

  /** `Serialize`: the counters are never found wrong, and the image is that of all indexes. */
  method Serialize(m: Manager) returns (image: Image)
    requires m.Holding({}, 0)
    ensures image == Saved(m.key, m.Indexes())
  {
    hide Consistent, View, PositionsFrom, Records, NewOrder, TriedOrder;
    var news, numbers := WriteNew(m);
    var tried := WriteTried(m);
    var positions := WriteBuckets(m, numbers);
    image := Image(1, 32, m.key, m.nNew, m.nTried, FlipBit30(NEW_BUCKET_COUNT), news + tried, positions);
  }

  // Reading.

  /** `Clear`; noted collisions stay. */
  method Clear(m: Manager, key: Key)
    requires m.Shape()
    modifies m, m.vvNew, m.vvTried
    ensures m.Indexes() == EMPTY && m.key == key && m.lastGood == 1 && m.collisions == old(m.collisions)
  {
    m.vRandom := [];
    m.key := key;
    ClearTable(m.vvNew);
    ClearTable(m.vvTried);
    m.idCount, m.nTried, m.nNew, m.lastGood := 0, 0, 0, 1;
    m.mapInfo, m.mapAddr := map[], map[];
  }

  method ClearTable(a: array2<int>)
    requires a.Length1 == BUCKET_SIZE
    modifies a
    ensures View(a) == map[]
  {
    for bucket := 0 to a.Length0
      invariant forall i, j :: 0 <= i < bucket && 0 <= j < BUCKET_SIZE ==> a[i, j] == -1
    {
      for entry := 0 to BUCKET_SIZE
        invariant forall i, j :: 0 <= i < bucket && 0 <= j < BUCKET_SIZE ==> a[i, j] == -1
        invariant forall j :: 0 <= j < entry ==> a[bucket, j] == -1
      {
        a[bucket, entry] := -1;
      }
    }
  }

  /** One entry of the new table. */
  method ReadNewEntry(m: Manager, usable: bool, n: int, r: Record)
    requires m.Shape() && n >= 0
    modifies m`mapInfo, m`mapAddr, m`vRandom, m.vvNew
    ensures m.Shape()
    ensures
      var b := old(m.Indexes()).(idCount := n, nNew := n);
      m.Indexes() == NewStep(m.hashes, m.key, usable, b, r).(idCount := old(m.idCount), nNew := old(m.nNew))
  {
    hide View, NewSlot;
    m.mapInfo := m.mapInfo[n := Restored(r, |m.vRandom|)];
    m.mapAddr := m.mapAddr[r.address.service.ip := n];
    m.vRandom := m.vRandom + [n];
    if !usable {
      var s := NewSlot(m.hashes, m.key, r.address.service, r.source);
      ViewAt(m.vvNew, s);
      if m.vvNew[s.bucket, s.pos] == -1 {
        SetSlot(m.vvNew, s, n);
        m.mapInfo := m.mapInfo[n := m.mapInfo[n].(refCount := m.mapInfo[n].refCount + 1)];
      }
    }
  }

  /** Two books that differ only in the counters kept apart while entries are read. */
  ghost predicate SameBut(b: Book, c: Book) {
    b.(idCount := 0, nNew := 0, nTried := 0) == c.(idCount := 0, nNew := 0, nTried := 0)
  }

  /** The entries of the new table; false when the stream ends. */
  method ReadNew(m: Manager, usable: bool, entries: seq<Record>) returns (ok: bool)
    requires m.Shape() && SameBut(m.Indexes(), EMPTY)
    modifies m`mapInfo, m`mapAddr, m`vRandom, m.vvNew
    ensures m.Shape()
    ensures ok <==> NonNegative(m.nNew) <= |entries|
    ensures ok ==> SameBut(m.Indexes(), LoadNew(m.hashes, m.key, usable, entries[..NonNegative(m.nNew)]))
  {
    hide NewStep, View;
    var n := 0;
    while n < m.nNew
      invariant m.Shape() && 0 <= n <= NonNegative(m.nNew) && n <= |entries|
      invariant SameBut(m.Indexes(), LoadNew(m.hashes, m.key, usable, entries[..n]))
    {
      if n == |entries| {
        return false;
      }
      ghost var b := LoadNew(m.hashes, m.key, usable, entries[..n]);
      LoadNewOrdered(m.hashes, m.key, usable, entries[..n]);
      NewStepSame(m.hashes, m.key, usable, m.Indexes().(idCount := n, nNew := n), b, entries[n]);
      assert entries[..n + 1][..n] == entries[..n];
      ReadNewEntry(m, usable, n, entries[n]);
      n := n + 1;
    }
    ok := true;
  }

  lemma NewStepSame(h: Hashes, key: Key, usable: bool, b: Book, c: Book, r: Record)
    requires SameBut(b, c) && b.idCount == c.idCount
    ensures SameBut(NewStep(h, key, usable, b, r), NewStep(h, key, usable, c, r))
  {
    hide NewSlot;
  }

  /** One entry of the tried table; false when its slot is taken. */
  method ReadTriedEntry(m: Manager, r: Record) returns (kept: bool)
    requires m.Shape()
    modifies m`mapInfo, m`mapAddr, m`vRandom, m`idCount, m.vvTried
    ensures m.Shape()
    ensures var b := old(m.Indexes());
      m.Indexes() == TriedStep(m.hashes, m.key, b, r).(nTried := b.nTried)
      && TriedStep(m.hashes, m.key, b, r).nTried == b.nTried + (if kept then 1 else 0)
  {
    hide View, TriedSlot;
    var s := TriedSlot(m.hashes, m.key, r.address.service);
    ViewAt(m.vvTried, s);
    kept := m.vvTried[s.bucket, s.pos] == -1;
    if kept {
      var info := Restored(r, |m.vRandom|).(inTried := true);
      m.vRandom := m.vRandom + [m.idCount];
      m.mapInfo := m.mapInfo[m.idCount := info];
      m.mapAddr := m.mapAddr[r.address.service.ip := m.idCount];
      SetSlot(m.vvTried, s, m.idCount);
      m.idCount := m.idCount + 1;
    }
  }

  /** The entries of the tried table; false when the stream ends. */
  method ReadTried(m: Manager, entries: seq<Record>) returns (ok: bool, lost: int)
    requires m.Shape()
    modifies m`mapInfo, m`mapAddr, m`vRandom, m`idCount, m.vvTried
    ensures m.Shape()
    ensures ok <==> NonNegative(m.nTried) <= |entries|
    ensures ok ==>
      var b := old(m.Indexes()).(nTried := 0);
      var c := LoadTried(m.hashes, m.key, b, entries[..NonNegative(m.nTried)]);
      m.Indexes() == c.(nTried := m.nTried) && lost == NonNegative(m.nTried) - c.nTried
  {
    hide TriedStep, View;
    ghost var b := m.Indexes().(nTried := 0);
    var n := 0;
    lost := 0;
    while n < m.nTried
      invariant m.Shape() && 0 <= n <= NonNegative(m.nTried) && n <= |entries|
      invariant
        var c := LoadTried(m.hashes, m.key, b, entries[..n]);
        m.Indexes() == c.(nTried := m.nTried) && lost == n - c.nTried
    {
      if n == |entries| {
        return false, lost;
      }
      ghost var c := LoadTried(m.hashes, m.key, b, entries[..n]);
      assert entries[..n + 1][..n] == entries[..n];
      TriedStepSame(m.hashes, m.key, c, m.nTried, entries[n]);
      var kept := ReadTriedEntry(m, entries[n]);
      if !kept {
        lost := lost + 1;
      }
      n := n + 1;
    }
    ok := true;
  }

  lemma TriedStepSame(h: Hashes, key: Key, b: Book, n: int, r: Record)
    ensures var d := TriedStep(h, key, b.(nTried := n), r);
      d.(nTried := 0) == TriedStep(h, key, b, r).(nTried := 0)
      && d.nTried - n == TriedStep(h, key, b, r).nTried - b.nTried
  {
    hide TriedSlot, Restored, Write;
    if TriedSlot(h, key, r.address.service) !in b.triedTable {
      var info := Restored(r, |b.random|).(inTried := true);
      assert Created(b.(nTried := n), info) == Created(b, info).(nTried := n);
    }
  }

  /** One index of a bucket list. */
  method ReadIndex(m: Manager, usable: bool, bucket: int, index: int)
    requires m.Shape() && 0 <= bucket && (usable ==> bucket < NEW_BUCKET_COUNT)
    requires forall k :: 0 <= k < m.nNew ==> k in m.mapInfo
    modifies m`mapInfo, m.vvNew
    ensures m.Shape() && m.mapInfo.Keys == old(m.mapInfo.Keys)
    ensures m.Indexes() == IndexStep(m.hashes, m.key, usable, m.nNew, old(m.Indexes()), bucket, index)
  {
    hide View, NewPos;
    if 0 <= index < m.nNew {
      var s := Slot(bucket, NewPos(m.hashes, m.key, m.mapInfo[index].address.service, bucket));
      if usable {
        ViewAt(m.vvNew, s);
        if m.vvNew[s.bucket, s.pos] == -1 && m.mapInfo[index].refCount < NEW_BUCKETS_PER_ADDRESS {
          m.mapInfo := m.mapInfo[index := m.mapInfo[index].(refCount := m.mapInfo[index].refCount + 1)];
          SetSlot(m.vvNew, s, index);
        }
      }
    }
  }

  /** One bucket list. */
  method ReadBucket(m: Manager, usable: bool, bucket: int, list: seq<int>)
    requires m.Shape() && 0 <= bucket && (usable ==> bucket < NEW_BUCKET_COUNT)
    requires forall k :: 0 <= k < m.nNew ==> k in m.mapInfo
    modifies m`mapInfo, m.vvNew
    ensures m.Shape() && m.mapInfo.Keys == old(m.mapInfo.Keys)
    ensures m.Indexes() == LoadIndexes(m.hashes, m.key, usable, m.nNew, old(m.Indexes()), bucket, list)
  {
    hide View, IndexStep;
    ghost var b := m.Indexes();
    for n := 0 to |list|
      invariant m.Shape() && m.mapInfo.Keys == old(m.mapInfo.Keys)
      invariant m.Indexes() == LoadIndexes(m.hashes, m.key, usable, m.nNew, b, bucket, list[..n])
    {
      assert list[..n + 1][..n] == list[..n];
      ReadIndex(m, usable, bucket, list[n]);
    }
    assert list[..|list|] == list;
  }

  /** All bucket lists; false when the stream ends. */
  method ReadBuckets(m: Manager, usable: bool, count: int, stream: seq<int>) returns (ok: bool)
    requires m.Shape() && (usable ==> count == NEW_BUCKET_COUNT)
    requires forall k :: 0 <= k < m.nNew ==> k in m.mapInfo
    modifies m`mapInfo, m.vvNew
    ensures m.Shape()
    ensures var r := LoadBuckets(m.hashes, m.key, usable, m.nNew, old(m.Indexes()), 0, count, stream);
      (ok <==> r.Some?) && (ok ==> m.Indexes() == r.value)
  {
    hide View, LoadIndexes, LoadBuckets;
    ghost var b := m.Indexes();
    assert stream[0..] == stream;
    var bucket, p := 0, 0;
    while bucket < count
      invariant m.Shape() && m.mapInfo.Keys == old(m.mapInfo.Keys) && 0 <= p <= |stream|
      invariant bucket == 0 || bucket <= count
      invariant 0 <= bucket
      invariant LoadBuckets(m.hashes, m.key, usable, m.nNew, m.Indexes(), bucket, count, stream[p..])
        == LoadBuckets(m.hashes, m.key, usable, m.nNew, b, 0, count, stream)
    {
      NextBucket(m.hashes, m.key, usable, m.nNew, m.Indexes(), bucket, count, stream, p);
      if p == |stream| {
        return false;
      }
      var size := NonNegative(stream[p]);
      if |stream| < p + 1 + size {
        return false;
      }
      ReadBucket(m, usable, bucket, stream[p + 1..p + 1 + size]);
      p := p + 1 + size;
      bucket := bucket + 1;
    }
    NoMoreBuckets(m.hashes, m.key, usable, m.nNew, m.Indexes(), bucket, count, stream[p..]);
    ok := true;
  }

  lemma NoMoreBuckets(h: Hashes, key: Key, usable: bool, nNew: int, b: Book, bucket: int, count: int, stream: seq<int>)
    requires bucket >= count
    ensures LoadBuckets(h, key, usable, nNew, b, bucket, count, stream) == Some(b)
  {
  }

  /** Deletes the entries that found no place. */
  method Prune(m: Manager, low: int)
    requires m.Shape() && RandomOk(m.mapInfo, m.vRandom) && low <= 0 && low <= m.idCount
    modifies m`mapInfo, m`mapAddr, m`vRandom, m`nNew
    ensures m.Shape() && m.Indexes() == Pruned(old(m.Indexes()), low, m.idCount)
  {
    hide View, RandomOk, Deleted;
    ghost var b := m.Indexes();
    var id := low;
    while id < m.idCount
      invariant m.Shape() && low <= id <= m.idCount && RandomOk(m.mapInfo, m.vRandom)
      invariant m.Indexes() == Pruned(b, low, id)
    {
      if id in m.mapInfo && !m.mapInfo[id].inTried && m.mapInfo[id].refCount == 0 {
        m.Delete(id);
      }
      id := id + 1;
      assert m.Indexes() == Pruned(b, low, id);
    }
  }

  /** `Unserialize`: false stands for the exception. */
  method Unserialize(m: Manager, image: Image) returns (ok: bool)
    requires m.Shape()
    modifies m, m.vvNew, m.vvTried
    ensures m.Shape() && m.collisions == old(m.collisions)
    ensures ok <==> Loaded(m.hashes, image).Some?
    ensures ok ==> m.Indexes() == Loaded(m.hashes, image).value && m.key == image.key
  {
    hide View, LoadEntries, LoadBuckets, RandomOk, Pruned, Buckets;
    Clear(m, image.key);
    if image.keySize != 32 {
      return false;
    }
    m.nNew, m.nTried := image.nNew, image.nTried;
    if m.nNew > NEW_BUCKET_COUNT * BUCKET_SIZE || m.nTried > TRIED_BUCKET_COUNT * BUCKET_SIZE {
      return false;
    }
    ok := ReadEntries(m, image);
    if !ok {
      return;
    }
    LoadEntriesOrdered(m.hashes, image);
    ok := ReadBuckets(m, Usable(image), Buckets(image), image.positions);
    if !ok {
      return;
    }
    LoadBucketsOrdered(m.hashes, image.key, Usable(image), image.nNew, LoadEntries(m.hashes, image), 0, Buckets(image),
                       image.positions);
    Prune(m, Lowest(image));
  }

  method ReadEntries(m: Manager, image: Image) returns (ok: bool)
    requires m.Shape() && m.key == image.key && m.Indexes() == EMPTY.(nNew := image.nNew, nTried := image.nTried)
    modifies m`mapInfo, m`mapAddr, m`vRandom, m`idCount, m`nTried, m.vvNew, m.vvTried
    ensures m.Shape()
    ensures ok <==> |image.entries| >= NonNegative(image.nNew) + NonNegative(image.nTried)
    ensures ok ==> m.Indexes() == LoadEntries(m.hashes, image)
  {
    hide View, LoadNew, LoadTried, Usable;
    ok := ReadNew(m, Usable(image), image.entries);
    if !ok {
      return;
    }
    var n := NonNegative(image.nNew);
    LoadNewOrdered(m.hashes, m.key, Usable(image), image.entries[..n]);
    m.idCount := m.nNew;
    ghost var b := LoadNew(m.hashes, m.key, Usable(image), image.entries[..n])
      .(idCount := image.nNew, nNew := image.nNew);
    assert m.Indexes().(nTried := 0) == b;
    var lost;
    ok, lost := ReadTried(m, image.entries[n..]);
    if ok {
      ghost var t := NonNegative(image.nTried);
      assert image.entries[n..][..t] == image.entries[n..n + t];
      m.nTried := m.nTried - lost;
    }
  }

  /** A manager written and read into a new one: everything that persists is there, and in order. */
  method Reload(m: Manager, newKey: Key) returns (loaded: Manager)
    requires m.Valid()
    ensures loaded.Valid() && loaded.key == m.key && Restores(m.Indexes(), loaded.Indexes())
  {
    hide Consistent, View, Restores, Loaded, Saved, CollisionsOk;
    ghost var b := m.Indexes();
    var image := Serialize(m);
    SavedIsRestored(m.hashes, m.key, b);
    loaded := LoadInto(m.hashes, newKey, image);
  }

  /** Reads an image that is consistent into a new manager. */
  method LoadInto(hashes: Hashes, newKey: Key, image: Image) returns (loaded: Manager)
    requires Loaded(hashes, image).Some? && Loaded(hashes, image).value.idCount >= 0
    requires Consistent(hashes, image.key, Loaded(hashes, image).value, {}, 0)
    ensures loaded.Valid() && loaded.hashes == hashes && loaded.key == image.key
    ensures loaded.Indexes() == Loaded(hashes, image).value
  {
    hide Consistent, View, Loaded, CollisionsOk;
    loaded := new Manager(hashes, newKey);
    var ok := Unserialize(loaded, image);
    NoneNoted(hashes, image.key, loaded.Indexes());
  }

  lemma NoneNoted(h: Hashes, key: Key, b: Book)
    ensures CollisionsOk(h, key, b, {})
  {
  }

  lemma SavedIsRestored(h: Hashes, key: Key, b: Book)
    requires Consistent(h, key, b, {}, 0)
    ensures var image := Saved(key, b);
      && Loaded(h, image).Some? && image.key == key && Loaded(h, image).value.idCount >= 0
      && Restores(b, Loaded(h, image).value) && Consistent(h, key, Loaded(h, image).value, {}, 0)
  {
    hide Consistent, Restores, Loaded, Saved;
    RoundTrip(h, key, b);
    SavedHeader(key, b);
    RestoredIdCount(b, Loaded(h, Saved(key, b)).value);
  }

  lemma RestoredIdCount(b: Book, c: Book)
    requires Restores(b, c)
    ensures c.idCount >= 0
  {
  }
}
