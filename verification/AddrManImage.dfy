/**
 * The stored form of the address manager: what is written, what reading it
 * back rebuilds, and why nothing but the memory-only fields is lost.
 */
module AddrManImage {
  import opened AddrManModel
  import opened Common

  /** The part of an entry that is written. */
  datatype Record = Record(address: Address, source: NetAddr, lastSuccess: int, attempts: int)

  /** A stored manager; the entries and the bucket lists are read through cursors. */
  datatype Image = Image(
    version: nat,
    keySize: nat,
    key: Key,
    nNew: int,
    nTried: int,
    buckets: int,
    entries: seq<Record>,
    positions: seq<int>)

  const BIT30: int := 0x4000_0000

  /** Exclusive or with `1 << 30` on a two's complement number. */
  function FlipBit30(x: int): int {
    if (x / BIT30) % 2 == 1 then x - BIT30 else x + BIT30
  }

  lemma FlipTwice(x: int)
    ensures FlipBit30(FlipBit30(x)) == x
  {
  }

  function Buckets(image: Image): int {
    if image.version != 0 then FlipBit30(image.buckets) else image.buckets
  }

  /** Whether the stored bucket lists can be used. */
  predicate Usable(image: Image) {
    image.version == 1 && Buckets(image) == NEW_BUCKET_COUNT
  }

  function Stored(info: Info): Record {
    Record(info.address, info.source, info.lastSuccess, info.attempts)
  }

  function Restored(r: Record, place: int): Info {
    Info(r.address, r.source, 0, 0, r.lastSuccess, r.attempts, 0, false, place)
  }

  /** Writing -1 into a slot empties it. */
  function Write(t: Table, s: Slot, v: int): Table {
    if v == -1 then t - {s} else t[s := v]
  }

  function ReferencedIfFree(b: Book, id: int, s: Slot): Book
    requires id in b.infos
  {
    if s in b.newTable then b else Referenced(b, id, s)
  }

  // Reading.

  /** One entry of the new table is read. */
  function NewStep(h: Hashes, key: Key, usable: bool, b: Book, r: Record): Book {
    var c := Created(b, Restored(r, |b.random|)).(nNew := b.nNew + 1);
    if usable then c else ReferencedIfFree(c, b.idCount, NewSlot(h, key, r.address.service, r.source))
  }

  function LoadNew(h: Hashes, key: Key, usable: bool, records: seq<Record>): Book {
    if records == [] then EMPTY
    else
      var n := |records| - 1;
      NewStep(h, key, usable, LoadNew(h, key, usable, records[..n]), records[n])
  }

  /** One entry of the tried table is read; it is lost when its slot is taken. */
  function TriedStep(h: Hashes, key: Key, b: Book, r: Record): Book {
    var s := TriedSlot(h, key, r.address.service);
    if s in b.triedTable then b
    else
      Created(b, Restored(r, |b.random|).(inTried := true))
        .(triedTable := Write(b.triedTable, s, b.idCount), nTried := b.nTried + 1)
  }

  function LoadTried(h: Hashes, key: Key, b: Book, records: seq<Record>): Book {
    if records == [] then b
    else
      var n := |records| - 1;
      TriedStep(h, key, LoadTried(h, key, b, records[..n]), records[n])
  }

  /** One index of a bucket list is read. */
  function IndexStep(h: Hashes, key: Key, usable: bool, nNew: int, b: Book, bucket: int, index: int): Book {
    if !(0 <= index < nNew) || index !in b.infos then b
    else
      var s := Slot(bucket, NewPos(h, key, b.infos[index].address.service, bucket));
      if usable && s !in b.newTable && b.infos[index].refCount < NEW_BUCKETS_PER_ADDRESS
      then Referenced(b, index, s) else b
  }

  function LoadIndexes(h: Hashes, key: Key, usable: bool, nNew: int, b: Book, bucket: int, list: seq<int>): Book {
    if list == [] then b
    else
      var n := |list| - 1;
      IndexStep(h, key, usable, nNew, LoadIndexes(h, key, usable, nNew, b, bucket, list[..n]), bucket, list[n])
  }

  function NonNegative(n: int): nat { if n < 0 then 0 else n }

  /** The bucket lists from `bucket` on; `None` when the stream ends too early. */
  function LoadBuckets(h: Hashes, key: Key, usable: bool, nNew: int, b: Book, bucket: int, count: int, stream: seq<int>)
    : Option<Book>
    decreases count - bucket
  {
    if bucket >= count then Some(b)
    else if stream == [] || |stream| < 1 + NonNegative(stream[0]) then None
    else
      var n := 1 + NonNegative(stream[0]);
      LoadBuckets(h, key, usable, nNew, LoadIndexes(h, key, usable, nNew, b, bucket, stream[1..n]),
                  bucket + 1, count, stream[n..])
  }

  /** One bucket list at position `p` of a stream, then the rest. */
  lemma NextBucket(h: Hashes, key: Key, usable: bool, nNew: int, b: Book, bucket: int, count: int,
                   stream: seq<int>, p: nat)
    requires p <= |stream| && bucket < count
    ensures var r := LoadBuckets(h, key, usable, nNew, b, bucket, count, stream[p..]);
      if p == |stream| || |stream| < p + 1 + NonNegative(stream[p]) then r == None
      else
        var q := p + 1 + NonNegative(stream[p]);
        r == LoadBuckets(h, key, usable, nNew, LoadIndexes(h, key, usable, nNew, b, bucket, stream[p + 1..q]),
                         bucket + 1, count, stream[q..])
  {
    hide LoadIndexes;
    if p < |stream| && |stream| >= p + 1 + NonNegative(stream[p]) {
      var n := NonNegative(stream[p]);
      assert stream[p..][1..1 + n] == stream[p + 1..p + 1 + n];
      assert stream[p..][1 + n..] == stream[p + 1 + n..];
    }
  }

  /** Entries that ended up without a place are deleted, in order of their ids. */
  ghost function Pruned(b: Book, low: int, high: int): (c: Book)
    requires RandomOk(b.infos, b.random)
    ensures RandomOk(c.infos, c.random) && c.infos.Keys <= b.infos.Keys
    decreases high - low
  {
    if high <= low then b
    else
      var c := Pruned(b, low, high - 1);
      if high - 1 in c.infos && !c.infos[high - 1].inTried && c.infos[high - 1].refCount == 0 then
        DeleteKeepsOrder(c, high - 1);
        Deleted(c, high - 1)
      else c
  }

  lemma DeleteKeepsOrder(b: Book, id: int)
    requires RandomOk(b.infos, b.random) && id in b.infos
    ensures var c := Deleted(b, id); RandomOk(c.infos, c.random) && c.infos.Keys <= b.infos.Keys
  {
    var q := |b.random| - 1;
    if b.infos[id].randomPos != q {
      SwapRandomOk(b, b.infos[id].randomPos, q);
    }
    DropRandom(Exchanged(b, b.infos[id].randomPos, q).infos, Exchanged(b, b.infos[id].randomPos, q).random, id);
  }

  /** The random order is sound and no id is used up to `idCount`. */
  ghost predicate Ordered(b: Book) {
    RandomOk(b.infos, b.random) && forall id :: id in b.infos ==> id < b.idCount
  }

  lemma EmptyOrdered()
    ensures Ordered(EMPTY)
  {
  }

  lemma LoadNewOrdered(h: Hashes, key: Key, usable: bool, records: seq<Record>)
    ensures var b := LoadNew(h, key, usable, records);
      && Ordered(b) && b.idCount == |records| && (forall k :: k in b.infos <==> 0 <= k < |records|)
      && b.nNew == |records| && b.nTried == 0 && b.triedTable == map[]
      && (forall k :: k in b.infos ==> !b.infos[k].inTried)
  {
    hide RandomOk, NewStep;
    EmptyOrdered();
    if records != [] {
      var n := |records| - 1;
      LoadNewOrdered(h, key, usable, records[..n]);
      NewStepOrdered(h, key, usable, LoadNew(h, key, usable, records[..n]), records[n]);
    }
  }

  lemma NewStepOrdered(h: Hashes, key: Key, usable: bool, b: Book, r: Record)
    requires Ordered(b)
    ensures var c := NewStep(h, key, usable, b, r);
      && Ordered(c) && c.idCount == b.idCount + 1 && c.infos.Keys == b.infos.Keys + {b.idCount}
      && c.nNew == b.nNew + 1 && c.nTried == b.nTried && c.triedTable == b.triedTable
      && !c.infos[b.idCount].inTried && (forall id :: id in b.infos ==> c.infos[id] == b.infos[id])
  {
    hide RandomOk, NewSlot;
    var info := Restored(r, |b.random|);
    AppendRandom(b.infos, b.random, b.idCount, info);
    SamePlace(b.infos[b.idCount := info], b.random + [b.idCount], b.idCount, info.(refCount := 1));
  }

  lemma LoadTriedOrdered(h: Hashes, key: Key, b: Book, records: seq<Record>)
    requires Ordered(b)
    ensures var c := LoadTried(h, key, b, records);
      && Ordered(c) && b.infos.Keys <= c.infos.Keys && c.nNew == b.nNew
      && b.nTried <= c.nTried <= b.nTried + |records|
      && c.idCount == b.idCount + c.nTried - b.nTried
      && (forall id :: id in c.infos && id !in b.infos ==> b.idCount <= id)
      && (forall id :: id in b.infos ==> c.infos[id] == b.infos[id])
  {
    hide RandomOk, TriedSlot;
    if records != [] {
      var n := |records| - 1;
      LoadTriedOrdered(h, key, b, records[..n]);
      var c := LoadTried(h, key, b, records[..n]);
      AppendRandom(c.infos, c.random, c.idCount, Restored(records[n], |c.random|).(inTried := true));
    }
  }

  lemma IndexStepOrdered(h: Hashes, key: Key, usable: bool, nNew: int, b: Book, bucket: int, index: int)
    requires RandomOk(b.infos, b.random)
    ensures var c := IndexStep(h, key, usable, nNew, b, bucket, index);
      && RandomOk(c.infos, c.random) && c.infos.Keys == b.infos.Keys && c.idCount == b.idCount
      && (forall id :: id in b.infos ==> c.infos[id].inTried == b.infos[id].inTried)
  {
    hide RandomOk, NewPos;
    if index in b.infos {
      SamePlace(b.infos, b.random, index, b.infos[index].(refCount := b.infos[index].refCount + 1));
    }
  }

  lemma LoadIndexesOrdered(h: Hashes, key: Key, usable: bool, nNew: int, b: Book, bucket: int, list: seq<int>)
    requires RandomOk(b.infos, b.random)
    ensures var c := LoadIndexes(h, key, usable, nNew, b, bucket, list);
      && RandomOk(c.infos, c.random) && c.infos.Keys == b.infos.Keys && c.idCount == b.idCount
      && (forall id :: id in b.infos ==> c.infos[id].inTried == b.infos[id].inTried)
  {
    hide RandomOk, IndexStep;
    if list != [] {
      var n := |list| - 1;
      LoadIndexesOrdered(h, key, usable, nNew, b, bucket, list[..n]);
      IndexStepOrdered(h, key, usable, nNew, LoadIndexes(h, key, usable, nNew, b, bucket, list[..n]), bucket, list[n]);
    }
  }

  lemma LoadBucketsOrdered(h: Hashes, key: Key, usable: bool, nNew: int, b: Book, bucket: int, count: int,
                           stream: seq<int>)
    requires RandomOk(b.infos, b.random)
    ensures var r := LoadBuckets(h, key, usable, nNew, b, bucket, count, stream);
      r.Some? ==>
        && RandomOk(r.value.infos, r.value.random) && r.value.infos.Keys == b.infos.Keys && r.value.idCount == b.idCount
        && (forall id :: id in b.infos ==> r.value.infos[id].inTried == b.infos[id].inTried)
    decreases count - bucket
  {
    hide RandomOk, LoadIndexes;
    if bucket < count && stream != [] && |stream| >= 1 + NonNegative(stream[0]) {
      var n := 1 + NonNegative(stream[0]);
      LoadIndexesOrdered(h, key, usable, nNew, b, bucket, stream[1..n]);
      LoadBucketsOrdered(h, key, usable, nNew, LoadIndexes(h, key, usable, nNew, b, bucket, stream[1..n]),
                         bucket + 1, count, stream[n..]);
    }
  }

  /** Whether the header is accepted. */
  predicate HeaderOk(image: Image) {
    && image.keySize == 32
    && image.nNew <= NEW_BUCKET_COUNT * BUCKET_SIZE
    && image.nTried <= TRIED_BUCKET_COUNT * BUCKET_SIZE
  }

  /** The book once all entries are read; `nTried` is short by the entries lost to collisions. */
  function LoadEntries(h: Hashes, image: Image): (b: Book)
    requires |image.entries| >= NonNegative(image.nNew) + NonNegative(image.nTried)
  {
    var n, t := NonNegative(image.nNew), NonNegative(image.nTried);
    var b := LoadNew(h, image.key, Usable(image), image.entries[..n]).(idCount := image.nNew, nNew := image.nNew);
    var c := LoadTried(h, image.key, b, image.entries[n..n + t]);
    c.(nTried := image.nTried - (t - c.nTried))
  }

  lemma LoadEntriesOrdered(h: Hashes, image: Image)
    requires |image.entries| >= NonNegative(image.nNew) + NonNegative(image.nTried)
    ensures var b := LoadEntries(h, image);
      && Ordered(b) && (forall k :: 0 <= k < image.nNew ==> k in b.infos && !b.infos[k].inTried)
      && (forall id :: id in b.infos ==> id >= image.nNew || id >= 0)
      && b.idCount >= image.nNew
  {
    hide RandomOk, LoadNew, LoadTried, Usable;
    var n, t := NonNegative(image.nNew), NonNegative(image.nTried);
    LoadNewOrdered(h, image.key, Usable(image), image.entries[..n]);
    var b := LoadNew(h, image.key, Usable(image), image.entries[..n]).(idCount := image.nNew, nNew := image.nNew);
    LoadTriedOrdered(h, image.key, b, image.entries[n..n + t]);
  }

  function Lowest(image: Image): int { if image.nNew < 0 then image.nNew else 0 }

  /** What reading an image into a cleared manager makes of it; `None` when it is rejected. */
  ghost function Loaded(h: Hashes, image: Image): Option<Book> {
    if !HeaderOk(image) || |image.entries| < NonNegative(image.nNew) + NonNegative(image.nTried) then None
    else
      var b := LoadEntries(h, image);
      LoadEntriesOrdered(h, image);
      LoadBucketsOrdered(h, image.key, Usable(image), image.nNew, b, 0, Buckets(image), image.positions);
      match LoadBuckets(h, image.key, Usable(image), image.nNew, b, 0, Buckets(image), image.positions)
      case None => None
      case Some(c) => Some(Pruned(c, Lowest(image), c.idCount))
  }

  // Which accepted images yield a consistent manager.

  ghost predicate FewReferences(infos: map<int, Info>) {
    forall id :: id in infos ==> infos[id].refCount <= NEW_BUCKETS_PER_ADDRESS
  }

  /** Consistent, except that entries may lack a reference and that nothing is said about the address map. */
  ghost predicate Filed(h: Hashes, key: Key, b: Book) {
    && (forall id :: id in b.infos ==> 0 <= id < b.idCount)
    && RandomOk(b.infos, b.random)
    && NewOk(h, key, b.infos, b.newTable)
    && TriedOk(h, key, b.infos, b.triedTable)
    && RefsOk(b.infos, b.newTable, b.infos.Keys)
    && FewReferences(b.infos)
    && CountsOk(b.infos, b.nNew, b.nTried, 0)
  }

  /** The address map leads from every address to one of the entries that bear it. */
  ghost predicate Named(b: Book) {
    && (forall id :: id in b.infos ==> b.infos[id].Ip() in b.addrs)
    && (forall a :: a in b.addrs ==> b.addrs[a] in b.infos && b.infos[b.addrs[a]].Ip() == a)
  }

  lemma EmptyFiled(h: Hashes, key: Key)
    ensures Filed(h, key, EMPTY) && Named(EMPTY)
  {
  }

  lemma CreateFiled(h: Hashes, key: Key, b: Book, info: Info)
    requires Filed(h, key, b) && 0 <= b.idCount
    requires info.refCount == 0 && !info.inTried && info.randomPos == |b.random|
    ensures Filed(h, key, Created(b, info).(nNew := b.nNew + 1))
  {
    hide RandomOk, NewOk, TriedOk, NewIds, TriedIds;
    AppendTables(h, key, b, info);
    AppendRandom(b.infos, b.random, b.idCount, info);
  }

  lemma ReferenceFiled(h: Hashes, key: Key, b: Book, id: int, s: Slot)
    requires Filed(h, key, b) && id in b.infos && !b.infos[id].inTried && s !in b.newTable
    requires InTable(s, NEW_BUCKET_COUNT) && s.pos == NewPos(h, key, b.infos[id].address.service, s.bucket)
    requires b.infos[id].refCount < NEW_BUCKETS_PER_ADDRESS
    ensures Filed(h, key, Referenced(b, id, s))
  {
    hide RandomOk, NewOk, TriedOk, NewIds, TriedIds, NewPos;
    var info := b.infos[id].(refCount := b.infos[id].refCount + 1);
    AddSlot(b.infos, b.newTable, b.infos.Keys, id, s);
    SamePlace(b.infos, b.random, id, info);
    SameTables(h, key, b.infos, b.newTable, b.triedTable, id, info);
    FillSlot(h, key, b.infos[id := info], b.newTable, id, s);
  }

  lemma NewStepFiled(h: Hashes, key: Key, usable: bool, b: Book, r: Record)
    requires Filed(h, key, b) && 0 <= b.idCount
    ensures Filed(h, key, NewStep(h, key, usable, b, r))
  {
    hide Filed, NewSlot;
    var info := Restored(r, |b.random|);
    CreateFiled(h, key, b, info);
    var c := Created(b, info).(nNew := b.nNew + 1);
    var s := NewSlot(h, key, r.address.service, r.source);
    if !usable && s !in c.newTable {
      ReferenceFiled(h, key, c, b.idCount, s);
    }
  }

  lemma NewStepNamed(h: Hashes, key: Key, usable: bool, b: Book, r: Record)
    requires Named(b) && b.idCount !in b.infos
    ensures Named(NewStep(h, key, usable, b, r))
  {
    hide NewSlot;
  }

  lemma LoadNewFiled(h: Hashes, key: Key, usable: bool, records: seq<Record>)
    ensures Filed(h, key, LoadNew(h, key, usable, records)) && Named(LoadNew(h, key, usable, records))
  {
    hide Filed, NewStep, RandomOk;
    EmptyFiled(h, key);
    if records != [] {
      var k := |records| - 1;
      var b := LoadNew(h, key, usable, records[..k]);
      LoadNewFiled(h, key, usable, records[..k]);
      LoadNewOrdered(h, key, usable, records[..k]);
      NewStepFiled(h, key, usable, b, records[k]);
      NewStepNamed(h, key, usable, b, records[k]);
    }
  }

  lemma TriedStepFiled(h: Hashes, key: Key, b: Book, r: Record)
    requires Filed(h, key, b) && 0 <= b.idCount
    ensures Filed(h, key, TriedStep(h, key, b, r))
  {
    if TriedSlot(h, key, r.address.service) !in b.triedTable {
      FiledTried(h, key, b, Restored(r, |b.random|));
    }
  }

  /** A new entry of the tried table. */
  lemma FiledTried(h: Hashes, key: Key, b: Book, info: Info)
    requires Filed(h, key, b) && 0 <= b.idCount && TriedSlot(h, key, info.address.service) !in b.triedTable
    requires info.refCount == 0 && !info.inTried && info.randomPos == |b.random|
    ensures var s := TriedSlot(h, key, info.address.service);
      Filed(h, key, Created(b, info.(inTried := true))
        .(triedTable := b.triedTable[s := b.idCount], nTried := b.nTried + 1))
  {
    hide RandomOk, NewOk, TriedOk, NewIds, TriedIds, TriedSlot, RefsOk, FewReferences, SlotsOf;
    var c := Created(b, info);
    var infos := b.infos[b.idCount := info.(inTried := true)];
    AppendTables(h, key, b, info);
    AppendRandom(b.infos, b.random, b.idCount, info);
    assert c.infos[b.idCount := info.(inTried := true)] == infos;
    TryTables(h, key, c, b.idCount);
    SamePlace(c.infos, c.random, b.idCount, info.(inTried := true));
    FiledRefs(b, info.(inTried := true));
  }

  lemma FiledRefs(b: Book, info: Info)
    requires RefsOk(b.infos, b.newTable, b.infos.Keys) && FewReferences(b.infos)
    requires info.refCount == 0 && SlotsOf(b.newTable, b.idCount) == {}
    ensures var infos := b.infos[b.idCount := info]; RefsOk(infos, b.newTable, infos.Keys) && FewReferences(infos)
  {
    hide SlotsOf;
  }

  lemma TriedStepNamed(h: Hashes, key: Key, b: Book, r: Record)
    requires Named(b) && b.idCount !in b.infos
    ensures Named(TriedStep(h, key, b, r))
  {
    hide TriedSlot;
  }

  lemma LoadTriedFiled(h: Hashes, key: Key, b: Book, records: seq<Record>)
    requires Filed(h, key, b) && Named(b) && Ordered(b) && 0 <= b.idCount
    ensures Filed(h, key, LoadTried(h, key, b, records)) && Named(LoadTried(h, key, b, records))
  {
    hide Filed, TriedStep, RandomOk;
    if records != [] {
      var k := |records| - 1;
      var c := LoadTried(h, key, b, records[..k]);
      LoadTriedFiled(h, key, b, records[..k]);
      LoadTriedOrdered(h, key, b, records[..k]);
      TriedStepFiled(h, key, c, records[k]);
      TriedStepNamed(h, key, c, records[k]);
    }
  }

  lemma IndexStepFiled(h: Hashes, key: Key, usable: bool, nNew: int, b: Book, bucket: int, index: int)
    requires Filed(h, key, b) && 0 <= bucket && (usable ==> bucket < NEW_BUCKET_COUNT)
    requires forall k :: 0 <= k < nNew && k in b.infos ==> !b.infos[k].inTried
    ensures Filed(h, key, IndexStep(h, key, usable, nNew, b, bucket, index))
  {
    hide Filed, NewPos;
    if 0 <= index < nNew && index in b.infos {
      var s := Slot(bucket, NewPos(h, key, b.infos[index].address.service, bucket));
      if usable && s !in b.newTable && b.infos[index].refCount < NEW_BUCKETS_PER_ADDRESS {
        ReferenceFiled(h, key, b, index, s);
      }
    }
  }

  /** Reading bucket lists changes no address, no standing in the tried table and neither counter. */
  ghost predicate SameNames(b: Book, c: Book) {
    && c.addrs == b.addrs && c.infos.Keys == b.infos.Keys && c.nNew == b.nNew && c.nTried == b.nTried
    && (forall id :: id in b.infos ==> c.infos[id].Ip() == b.infos[id].Ip())
  }

  lemma LoadIndexesFiled(h: Hashes, key: Key, usable: bool, nNew: int, b: Book, bucket: int, list: seq<int>)
    requires 0 <= bucket && (usable ==> bucket < NEW_BUCKET_COUNT) && RandomOk(b.infos, b.random)
    requires forall k :: 0 <= k < nNew && k in b.infos ==> !b.infos[k].inTried
    ensures var c := LoadIndexes(h, key, usable, nNew, b, bucket, list);
      SameNames(b, c) && (Filed(h, key, b) ==> Filed(h, key, c))
  {
    hide Filed, RandomOk, NewPos;
    if list != [] {
      var k := |list| - 1;
      var c := LoadIndexes(h, key, usable, nNew, b, bucket, list[..k]);
      LoadIndexesFiled(h, key, usable, nNew, b, bucket, list[..k]);
      LoadIndexesOrdered(h, key, usable, nNew, b, bucket, list[..k]);
      if Filed(h, key, b) {
        IndexStepFiled(h, key, usable, nNew, c, bucket, list[k]);
      }
    }
  }

  lemma LoadBucketsFiled(h: Hashes, key: Key, usable: bool, nNew: int, b: Book, bucket: int, count: int,
                         stream: seq<int>)
    requires 0 <= bucket && (usable ==> count == NEW_BUCKET_COUNT) && RandomOk(b.infos, b.random)
    requires forall k :: 0 <= k < nNew && k in b.infos ==> !b.infos[k].inTried
    ensures var r := LoadBuckets(h, key, usable, nNew, b, bucket, count, stream);
      r.Some? ==> SameNames(b, r.value) && (Filed(h, key, b) ==> Filed(h, key, r.value))
    decreases count - bucket
  {
    hide Filed, LoadIndexes, RandomOk;
    if bucket < count && stream != [] && |stream| >= 1 + NonNegative(stream[0]) {
      var k := 1 + NonNegative(stream[0]);
      LoadIndexesFiled(h, key, usable, nNew, b, bucket, stream[1..k]);
      LoadIndexesOrdered(h, key, usable, nNew, b, bucket, stream[1..k]);
      LoadBucketsFiled(h, key, usable, nNew, LoadIndexes(h, key, usable, nNew, b, bucket, stream[1..k]),
                       bucket + 1, count, stream[k..]);
    }
  }

  // Pruning.

  predicate Unplaced(info: Info) { !info.inTried && info.refCount == 0 }

  /** The entries between two numbers that have no place in either table. */
  ghost function Homeless(b: Book, low: int, high: int): set<int> {
    set id | id in b.infos && low <= id < high && Unplaced(b.infos[id])
  }

  ghost function AddressesOf(b: Book, ids: set<int>): set<NetAddr>
    requires ids <= b.infos.Keys
  {
    set id | id in ids :: b.infos[id].Ip()
  }

  /** What pruning removes: entries without a place, and with each of them its address, whoever else bears it. */
  ghost predicate PrunedTo(b: Book, gone: set<int>, c: Book)
    requires gone <= b.infos.Keys
  {
    && c.infos.Keys == b.infos.Keys - gone && c.addrs == b.addrs - AddressesOf(b, gone)
    && (forall id :: id in c.infos ==> SameUpToPos(c.infos[id], b.infos[id]))
    && c.idCount == b.idCount && c.nTried == b.nTried && c.nNew <= b.nNew
  }

  lemma DeletePrunes(b: Book, gone: set<int>, c: Book, id: int)
    requires gone <= b.infos.Keys && PrunedTo(b, gone, c) && RandomOk(c.infos, c.random) && id in c.infos
    ensures PrunedTo(b, gone + {id}, Deleted(c, id))
  {
    hide RandomOk, Exchanged;
    var p, q := c.infos[id].randomPos, |c.random| - 1;
    LastPlace(c, id);
    ExchangedSame(c, p, q);
    var e := Exchanged(c, p, q);
    SameEntriesAddress(e.infos, c.infos, id);
    assert SameUpToPos(c.infos[id], b.infos[id]);
    assert AddressesOf(b, gone + {id}) == AddressesOf(b, gone) + {b.infos[id].Ip()};
    var d := Removed(e, id);
    forall i | i in d.infos ensures SameUpToPos(d.infos[i], b.infos[i]) {
      assert SameUpToPos(e.infos[i], c.infos[i]) && SameUpToPos(c.infos[i], b.infos[i]);
    }
  }

  lemma DeleteFiled(h: Hashes, key: Key, b: Book, id: int)
    requires Filed(h, key, b) && id in b.infos && Unplaced(b.infos[id])
    ensures RandomOk(b.infos, b.random) && Filed(h, key, Deleted(b, id))
  {
    hide RandomOk, NewOk, TriedOk, NewIds, TriedIds, RefsOk, Exchanged;
    var p, q := b.infos[id].randomPos, |b.random| - 1;
    LastPlace(b, id);
    ExchangeKeeps(b, p, q, id);
    ExchangedSame(b, p, q);
    var c := Exchanged(b, p, q);
    assert c.infos[id].randomPos == q && SameUpToPos(c.infos[id], b.infos[id]);
    SameUpToPositions(h, key, b, c.infos, b.infos.Keys, 0);
    FewUpToPositions(b.infos, c.infos);
    RemoveFiled(h, key, c, id);
  }

  lemma FewUpToPositions(was: map<int, Info>, infos: map<int, Info>)
    requires FewReferences(was) && SameEntries(infos, was)
    ensures FewReferences(infos)
  {
    assert forall i :: i in infos ==> SameUpToPos(infos[i], was[i]);
  }

  lemma RemoveFiled(h: Hashes, key: Key, b: Book, id: int)
    requires Filed(h, key, b) && id in b.infos && Unplaced(b.infos[id])
    requires b.random != [] && b.infos[id].randomPos == |b.random| - 1
    ensures Filed(h, key, Removed(b, id))
  {
    hide RandomOk, NewOk, TriedOk, NewIds, TriedIds, RefsOk;
    DropRandom(b.infos, b.random, id);
    DropRefs(b.infos, b.newTable, b.infos.Keys, id);
    DropTables(h, key, b, id);
    assert (b.infos - {id}).Keys == b.infos.Keys - {id};
  }

  lemma LastPlace(b: Book, id: int)
    requires RandomOk(b.infos, b.random) && id in b.infos
    ensures 0 <= b.infos[id].randomPos < |b.random| && b.random[b.infos[id].randomPos] == id
  {
  }

  lemma ExchangedSame(b: Book, p: int, q: int)
    requires RandomOk(b.infos, b.random) && 0 <= p < |b.random| && 0 <= q < |b.random|
    ensures var c := Exchanged(b, p, q);
      && SameEntries(c.infos, b.infos) && c == b.(infos := c.infos, random := c.random)
      && b.random[p] in c.infos && c.infos[b.random[p]].randomPos == q && |c.random| == |b.random|
  {
    SameEntriesReflexive(b.infos);
    if p != q {
      SwapRandomOk(b, p, q);
      assert Swapped(b, p, q).infos.Keys == b.infos.Keys;
    }
  }

  lemma PrunedFiled(h: Hashes, key: Key, b: Book, low: int, high: int)
    requires RandomOk(b.infos, b.random)
    ensures PrunedTo(b, Homeless(b, low, high), Pruned(b, low, high))
    ensures Filed(h, key, b) ==> Filed(h, key, Pruned(b, low, high))
    decreases high - low
  {
    hide Filed, RandomOk, Deleted;
    if low < high {
      PrunedFiled(h, key, b, low, high - 1);
      var c, id := Pruned(b, low, high - 1), high - 1;
      var gone := Homeless(b, low, high - 1);
      assert id in c.infos ==> SameUpToPos(c.infos[id], b.infos[id]);
      if id in c.infos && Unplaced(c.infos[id]) {
        assert Homeless(b, low, high) == gone + {id};
        DeletePrunes(b, gone, c, id);
        if Filed(h, key, b) {
          DeleteFiled(h, key, c, id);
        }
      } else {
        assert Homeless(b, low, high) == gone;
      }
    } else {
      assert Homeless(b, low, high) == {};
    }
  }

  /** No entry that has a place shares its address with another entry. */
  ghost predicate SoleOwners(b: Book) {
    forall i, j :: i in b.infos && j in b.infos && i != j && !Unplaced(b.infos[i]) ==>
      b.infos[i].Ip() != b.infos[j].Ip()
  }

  /** After pruning the address map is right just when no placed entry shared its address. */
  lemma PrunedAddrs(b: Book, gone: set<int>, c: Book)
    requires Named(b) && gone == (set id | id in b.infos && Unplaced(b.infos[id])) && PrunedTo(b, gone, c)
    requires forall id :: id in b.infos ==> 0 <= id < b.idCount
    ensures AddrsOk(c.idCount, c.infos, c.addrs) <==> SoleOwners(b)
  {
    assert forall id :: id in c.infos ==> SameUpToPos(c.infos[id], b.infos[id]);
    assert forall id :: id in c.infos ==> c.infos[id].Ip() == b.infos[id].Ip();
    if SoleOwners(b) {
      SoleOwnersNamed(b, gone, c);
    }
    if AddrsOk(c.idCount, c.infos, c.addrs) {
      forall i, j | i in b.infos && j in b.infos && i != j && !Unplaced(b.infos[i])
        ensures b.infos[i].Ip() != b.infos[j].Ip()
      {
        assert i in c.infos && c.addrs[b.infos[i].Ip()] == i;
        assert j in gone ==> b.infos[j].Ip() in AddressesOf(b, gone);
      }
    }
  }

  lemma SoleOwnersNamed(b: Book, gone: set<int>, c: Book)
    requires Named(b) && gone == (set id | id in b.infos && Unplaced(b.infos[id])) && PrunedTo(b, gone, c)
    requires forall id :: id in b.infos ==> 0 <= id < b.idCount
    requires SoleOwners(b) && forall id :: id in c.infos ==> c.infos[id].Ip() == b.infos[id].Ip()
    ensures AddrsOk(c.idCount, c.infos, c.addrs)
  {
    forall id | id in c.infos ensures c.infos[id].Ip() in c.addrs && c.addrs[c.infos[id].Ip()] == id {
      assert id in b.infos && !Unplaced(b.infos[id]);
      assert b.addrs[b.infos[id].Ip()] == id;
    }
    forall a | a in c.addrs ensures c.addrs[a] in c.infos && c.infos[c.addrs[a]].Ip() == a {
      var j := b.addrs[a];
      assert b.infos[j].Ip() == a;
    }
  }

  lemma FiledIsConsistent(h: Hashes, key: Key, b: Book)
    requires Filed(h, key, b) && AddrsOk(b.idCount, b.infos, b.addrs)
    requires forall id :: id in b.infos ==> !Unplaced(b.infos[id])
    ensures Consistent(h, key, b, {}, 0)
  {
    hide RandomOk, NewOk, TriedOk, AddrsOk;
  }

  lemma LoadEntriesFiled(h: Hashes, image: Image)
    requires |image.entries| >= NonNegative(image.nNew) + NonNegative(image.nTried)
    ensures 0 <= image.nNew && 0 <= image.nTried ==>
      Filed(h, image.key, LoadEntries(h, image)) && Named(LoadEntries(h, image))
    ensures LoadEntries(h, image).nNew == image.nNew
    ensures image.nTried < 0 ==> LoadEntries(h, image).nTried < 0
  {
    hide Filed, LoadNew, LoadTried, Usable, RandomOk, Named;
    var n, t := NonNegative(image.nNew), NonNegative(image.nTried);
    var news, tried := image.entries[..n], image.entries[n..n + t];
    LoadNewFiled(h, image.key, Usable(image), news);
    LoadNewOrdered(h, image.key, Usable(image), news);
    var b := LoadNew(h, image.key, Usable(image), news);
    var b' := b.(idCount := image.nNew, nNew := image.nNew);
    LoadTriedOrdered(h, image.key, b', tried);
    if 0 <= image.nNew && 0 <= image.nTried {
      assert b == b';
      LoadTriedFiled(h, image.key, b, tried);
      var c := LoadTried(h, image.key, b, tried);
      assert c == LoadEntries(h, image);
    }
  }

  /** The book when everything is read and nothing is pruned yet. */
  ghost function Unpruned(h: Hashes, image: Image): Book
    requires Loaded(h, image).Some?
  {
    var b := LoadEntries(h, image);
    LoadBuckets(h, image.key, Usable(image), image.nNew, b, 0, Buckets(image), image.positions).value
  }

  /**
   * Whatever the version, the bucket count and the bucket lists of an accepted image, and however
   * many of its entries collide: the manager read from it is consistent if and only if neither
   * count is negative and no entry that found a place shares its address with another one.
   */
  lemma LoadedConsistent(h: Hashes, image: Image)
    requires Loaded(h, image).Some?
    ensures Consistent(h, image.key, Loaded(h, image).value, {}, 0) <==>
      0 <= image.nNew && 0 <= image.nTried && SoleOwners(Unpruned(h, image))
  {
    hide Filed, LoadEntries, LoadBuckets, RandomOk, Pruned, Named, SoleOwners, NewOk, TriedOk, RefsOk, AddrsOk;
    var b := LoadEntries(h, image);
    LoadEntriesFiled(h, image);
    LoadEntriesOrdered(h, image);
    LoadBucketsFiled(h, image.key, Usable(image), image.nNew, b, 0, Buckets(image), image.positions);
    LoadBucketsOrdered(h, image.key, Usable(image), image.nNew, b, 0, Buckets(image), image.positions);
    var c := Unpruned(h, image);
    var low := Lowest(image);
    PrunedFiled(h, image.key, c, low, c.idCount);
    var d := Pruned(c, low, c.idCount);
    if 0 <= image.nNew && 0 <= image.nTried {
      SameNamesNamed(b, c);
      AllHomeless(h, image.key, c);
      PrunedAddrs(c, Homeless(c, 0, c.idCount), d);
      assert forall id :: id in d.infos ==> SameUpToPos(d.infos[id], c.infos[id]);
      if SoleOwners(c) {
        FiledIsConsistent(h, image.key, d);
      }
    }
  }

  lemma SameNamesNamed(b: Book, c: Book)
    requires Named(b) && SameNames(b, c)
    ensures Named(c)
  {
    forall a | a in c.addrs ensures c.addrs[a] in c.infos && c.infos[c.addrs[a]].Ip() == a {
      var id := b.addrs[a];
      assert c.infos[id].Ip() == b.infos[id].Ip() == a;
    }
  }

  lemma AllHomeless(h: Hashes, key: Key, b: Book)
    requires Filed(h, key, b)
    ensures Homeless(b, 0, b.idCount) == (set id | id in b.infos && Unplaced(b.infos[id]))
    ensures forall id :: id in b.infos ==> 0 <= id < b.idCount
  {
  }

  // Distinct addresses are enough; one address twice is not always.

  predicate DistinctAddresses(records: seq<Record>) {
    forall i, j :: 0 <= i < j < |records| ==> records[i].address.service.ip != records[j].address.service.ip
  }

  /** The entries bear different addresses, all of them from the records read so far. */
  ghost predicate Apart(b: Book, seen: seq<Record>) {
    && (forall id :: id in b.infos ==> id < b.idCount)
    && (forall i, j :: i in b.infos && j in b.infos && i != j ==> b.infos[i].Ip() != b.infos[j].Ip())
    && (forall i :: i in b.infos ==> exists r :: r in seen && r.address.service.ip == b.infos[i].Ip())
  }

  lemma CreatedApart(b: Book, c: Book, r: Record, seen: seq<Record>)
    requires Apart(b, seen) && forall q :: q in seen ==> q.address.service.ip != r.address.service.ip
    requires c.idCount == b.idCount + 1 && c.infos.Keys == b.infos.Keys + {b.idCount}
    requires c.infos[b.idCount].Ip() == r.address.service.ip
    requires forall id :: id in b.infos ==> c.infos[id].Ip() == b.infos[id].Ip()
    ensures Apart(c, seen + [r])
  {
    assert r in seen + [r];
    assert forall q :: q in seen ==> q in seen + [r];
  }

  lemma LastIsDistinct(records: seq<Record>)
    requires DistinctAddresses(records) && records != []
    ensures forall r :: r in records[..|records| - 1] ==>
      r.address.service.ip != records[|records| - 1].address.service.ip
  {
  }

  lemma LoadNewApart(h: Hashes, key: Key, usable: bool, records: seq<Record>)
    requires DistinctAddresses(records)
    ensures Apart(LoadNew(h, key, usable, records), records)
  {
    hide Apart, RandomOk, NewSlot;
    if records == [] {
      assert Apart(EMPTY, []) by { NothingApart(); }
    } else {
      var k := |records| - 1;
      var b := LoadNew(h, key, usable, records[..k]);
      LoadNewApart(h, key, usable, records[..k]);
      LoadNewOrdered(h, key, usable, records[..k]);
      NewStepOrdered(h, key, usable, b, records[k]);
      LastIsDistinct(records);
      assert records == records[..k] + [records[k]];
      assert LoadNew(h, key, usable, records) == NewStep(h, key, usable, b, records[k]);
      assert NewStep(h, key, usable, b, records[k]).infos[b.idCount].Ip() == records[k].address.service.ip;
      hide DistinctAddresses, NewStep, LoadNew, Ordered;
      CreatedApart(b, NewStep(h, key, usable, b, records[k]), records[k], records[..k]);
    }
  }

  lemma NothingApart()
    ensures Apart(EMPTY, [])
  {
  }

  lemma MoreSeen(b: Book, seen: seq<Record>, r: Record)
    requires Apart(b, seen)
    ensures Apart(b, seen + [r])
  {
    assert forall q :: q in seen ==> q in seen + [r];
  }

  lemma LoadTriedApart(h: Hashes, key: Key, b: Book, before: seq<Record>, records: seq<Record>)
    requires Apart(b, before) && DistinctAddresses(before + records)
    ensures Apart(LoadTried(h, key, b, records), before + records)
  {
    hide Apart, TriedSlot;
    if records == [] {
      assert before + records == before;
    } else {
      var k := |records| - 1;
      var c, r := LoadTried(h, key, b, records[..k]), records[k];
      assert before + records == before + records[..k] + [r];
      assert before + records[..k] == (before + records)[..|before| + k];
      LoadTriedApart(h, key, b, before, records[..k]);
      LastIsDistinct(before + records);
      if TriedSlot(h, key, r.address.service) in c.triedTable {
        MoreSeen(c, before + records[..k], r);
      } else {
        ApartIds(c, before + records[..k]);
        CreatedApart(c, TriedStep(h, key, c, r), r, before + records[..k]);
      }
    }
  }

  lemma ApartIds(b: Book, seen: seq<Record>)
    requires Apart(b, seen)
    ensures b.idCount !in b.infos
  {
  }

  lemma ApartOwners(b: Book, seen: seq<Record>, c: Book)
    requires Apart(b, seen) && SameNames(b, c)
    ensures SoleOwners(c)
  {
    forall i, j | i in c.infos && j in c.infos && i != j ensures c.infos[i].Ip() != c.infos[j].Ip() {
      assert b.infos[i].Ip() != b.infos[j].Ip();
    }
  }

  /** Every accepted image with distinct addresses and no negative count yields a consistent manager. */
  lemma DistinctIsConsistent(h: Hashes, image: Image)
    requires Loaded(h, image).Some? && 0 <= image.nNew && 0 <= image.nTried
    requires DistinctAddresses(image.entries[..image.nNew + image.nTried])
    ensures Consistent(h, image.key, Loaded(h, image).value, {}, 0)
  {
    hide LoadBuckets, LoadNew, LoadTried, RandomOk, Pruned, Consistent, Apart, SoleOwners, Filed, DistinctAddresses;
    var n, all := image.nNew, image.nNew + image.nTried;
    var news, tried := image.entries[..n], image.entries[n..all];
    assert news + tried == image.entries[..all];
    PrefixDistinct(image.entries[..all], n);
    assert news == image.entries[..all][..n];
    LoadNewApart(h, image.key, Usable(image), news);
    LoadNewOrdered(h, image.key, Usable(image), news);
    var b := LoadNew(h, image.key, Usable(image), news);
    assert b == b.(idCount := n, nNew := n);
    LoadTriedApart(h, image.key, b, news, tried);
    var c := LoadTried(h, image.key, b, tried);
    var e := LoadEntries(h, image);
    LoadTriedOrdered(h, image.key, b, tried);
    assert e == c;
    LoadEntriesOrdered(h, image);
    LoadBucketsFiled(h, image.key, Usable(image), n, e, 0, Buckets(image), image.positions);
    ApartOwners(e, news + tried, Unpruned(h, image));
    LoadedConsistent(h, image);
  }

  lemma PrefixDistinct(records: seq<Record>, n: nat)
    requires DistinctAddresses(records) && n <= |records|
    ensures DistinctAddresses(records[..n])
  {
  }

  lemma LoadNewAppend(h: Hashes, key: Key, usable: bool, records: seq<Record>, r: Record)
    ensures LoadNew(h, key, usable, records + [r]) == NewStep(h, key, usable, LoadNew(h, key, usable, records), r)
  {
    assert (records + [r])[..|records|] == records;
  }

  /**
   * Some accepted images do not: two records of one address, read without bucket lists. The first entry finds its slot
   * free, and whether the second finds one or is pruned, the address map is wrong afterwards.
   */
  lemma TwiceIsInconsistent(h: Hashes, key: Key, r: Record, q: Record)
    requires r.address.service.ip == q.address.service.ip
    ensures var image := Image(0, 32, key, 2, 0, 0, [r, q], []);
      Loaded(h, image).Some? && !Consistent(h, key, Loaded(h, image).value, {}, 0)
  {
    hide Consistent, NewStep, LoadNew, RandomOk, Pruned, Unplaced;
    var image := Image(0, 32, key, 2, 0, 0, [r, q], []);
    var two := LoadNew(h, key, false, [r, q]);
    ReadTwice(h, key, r, q);
    assert image.entries[..2] == [r, q] && image.entries[2..2] == [];
    LoadNewOrdered(h, key, false, [r, q]);
    assert LoadEntries(h, image) == two;
    assert Unpruned(h, image) == two;
    LoadedConsistent(h, image);
    assert two.infos[0].Ip() == two.infos[1].Ip();
  }

  lemma ReadTwice(h: Hashes, key: Key, r: Record, q: Record)
    requires r.address.service.ip == q.address.service.ip
    ensures var two := LoadNew(h, key, false, [r, q]);
      && 0 in two.infos && 1 in two.infos && !Unplaced(two.infos[0]) && two.infos[0].Ip() == two.infos[1].Ip()
      && two.idCount == 2 && two.nNew == 2 && two.nTried == 0
  {
    hide LoadNew, NewSlot;
    var none: seq<Record> := [];
    LoadNewAppend(h, key, false, none, r);
    LoadNewAppend(h, key, false, [r], q);
    assert none + [r] == [r] && [r] + [q] == [r, q];
    assert LoadNew(h, key, false, none) == EMPTY by { LoadNone(h, key, false); }
    var one := NewStep(h, key, false, EMPTY, r);
    assert one.infos[0] == Restored(r, 0).(refCount := 1) && one.idCount == 1;
  }

  lemma LoadNone(h: Hashes, key: Key, usable: bool)
    ensures LoadNew(h, key, usable, []) == EMPTY
  {
  }
}
