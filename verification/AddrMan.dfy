/**
 * The stochastic address manager: two fixed-size bucket tables, an id map, an
 * address map, a randomly ordered vector, reference counts and two counters.
 * Every public operation restores the consistency condition that the source
 * only tests in debug builds.
 */
module AddrMan {
  import opened AddrManModel
  import opened Common
  import opened Arithmetic

  const GETADDR_MAX_PCT: int := 23
  const GETADDR_MAX: int := 2500

  function AllSlots(buckets: int): set<Slot> {
    set i, j | 0 <= i < buckets && 0 <= j < BUCKET_SIZE :: Slot(i, j)
  }

  /** The occupied slots of a bucket table and what they hold. */
  ghost function View(a: array2<int>): Table
    requires a.Length1 == BUCKET_SIZE
    reads a
  {
    map s | s in AllSlots(a.Length0) && a[s.bucket, s.pos] != -1 :: a[s.bucket, s.pos]
  }

  lemma ViewAt(a: array2<int>, s: Slot)
    requires a.Length1 == BUCKET_SIZE && InTable(s, a.Length0)
    ensures s in View(a) <==> a[s.bucket, s.pos] != -1
    ensures s in View(a) ==> View(a)[s] == a[s.bucket, s.pos]
  {
    assert s in AllSlots(a.Length0);
  }

  lemma EmptyView(a: array2<int>)
    requires a.Length1 == BUCKET_SIZE && forall i, j :: 0 <= i < a.Length0 && 0 <= j < BUCKET_SIZE ==> a[i, j] == -1
    ensures View(a) == map[]
  {
  }

  lemma EmptyConsistent(h: Hashes, key: Key)
    ensures Consistent(h, key, EMPTY, {}, 0) && CollisionsOk(h, key, EMPTY, {}) && TimesOk(EMPTY.infos)
  {
  }

  lemma ViewInTable(a: array2<int>)
    requires a.Length1 == BUCKET_SIZE
    ensures forall s :: s in View(a) ==> InTable(s, a.Length0)
  {
  }

  method SetSlot(a: array2<int>, s: Slot, v: int)
    requires a.Length1 == BUCKET_SIZE && InTable(s, a.Length0)
    modifies a
    ensures View(a) == if v == -1 then old(View(a)) - {s} else old(View(a))[s := v]
    ensures a[s.bucket, s.pos] == v
  {
    a[s.bucket, s.pos] := v;
    forall t: Slot | t in AllSlots(a.Length0) && t != s
      ensures a[t.bucket, t.pos] == old(a[t.bucket, t.pos])
    {
      assert t.bucket != s.bucket || t.pos != s.pos;
    }
    assert s in AllSlots(a.Length0);
  }

  /** `RandomInt`: any value below the bound. */
  method RandomInt(max: int) returns (r: int)
    requires max > 0
    ensures 0 <= r < max
  {
    r :| 0 <= r < max;
  }

  /** `GetAdjustedTime`: any positive time. */
  method GetAdjustedTime() returns (now: int)
    ensures now > 0
  {
    now :| now > 0;
  }

  class Manager {
    const hashes: Hashes
    const vvNew: array2<int>
    const vvTried: array2<int>
    var key: Key
    var idCount: int
    var mapInfo: map<int, Info>
    var mapAddr: map<NetAddr, int>
    var vRandom: seq<int>
    var nNew: int
    var nTried: int
    var lastGood: int
    var collisions: set<int>

    ghost predicate Shape()
      reads this
    {
      && vvNew.Length0 == NEW_BUCKET_COUNT && vvNew.Length1 == BUCKET_SIZE
      && vvTried.Length0 == TRIED_BUCKET_COUNT && vvTried.Length1 == BUCKET_SIZE
      && vvNew != vvTried
    }

    ghost function Indexes(): Book
      requires Shape()
      reads this, vvNew, vvTried
    {
      Book(idCount, mapInfo, mapAddr, vRandom, View(vvNew), View(vvTried), nNew, nTried)
    }

    ghost predicate Holding(pending: set<int>, skew: int)
      reads this, vvNew, vvTried
    {
      Shape() && idCount >= 0 && Consistent(hashes, key, Indexes(), pending, skew)
    }

    ghost predicate Valid()
      reads this, vvNew, vvTried
    {
      Holding({}, 0) && CollisionsOk(hashes, key, Indexes(), collisions)
    }

    constructor (hashes: Hashes, key: Key)
      ensures Valid() && TimesOk(mapInfo)
      ensures Indexes() == EMPTY && collisions == {} && lastGood == 1 && this.hashes == hashes && this.key == key
      ensures fresh(vvNew) && fresh(vvTried)
    {
      this.hashes := hashes;
      this.key := key;
      vvNew := new int[NEW_BUCKET_COUNT, BUCKET_SIZE]((i, j) => -1);
      vvTried := new int[TRIED_BUCKET_COUNT, BUCKET_SIZE]((i, j) => -1);
      idCount, nNew, nTried, lastGood := 0, 0, 0, 1;
      mapInfo, mapAddr, vRandom, collisions := map[], map[], [], {};
      new;
      hide Consistent, CollisionsOk, View, TimesOk;
      EmptyView(vvNew);
      EmptyView(vvTried);
      EmptyConsistent(hashes, key);
    }

    method Find(addr: NetAddr) returns (found: bool, id: int)
      requires Shape() && AddrsOk(idCount, mapInfo, mapAddr)
      ensures found == (addr in mapAddr)
      ensures found ==> id == mapAddr[addr] && id in mapInfo && mapInfo[id].Ip() == addr
    {
      if addr !in mapAddr {
        return false, -1;
      }
      return mapAddr[addr] in mapInfo, mapAddr[addr];
    }

    method Create(addr: Address, source: NetAddr) returns (id: int)
      requires Holding({}, 0) && addr.service.ip !in mapAddr
      modifies this`idCount, this`mapInfo, this`mapAddr, this`vRandom
      ensures Holding({id}, -1)
      ensures id == old(idCount) && id !in old(mapInfo) && idCount == id + 1
      ensures mapInfo == old(mapInfo)[id := Info(addr, source, 0, 0, 0, 0, 0, false, |old(vRandom)|)]
      ensures mapAddr == old(mapAddr)[addr.service.ip := id]
      ensures vRandom == old(vRandom) + [id]
    {
      hide Consistent;
      id := idCount;
      var info := Info(addr, source, 0, 0, 0, 0, 0, false, |vRandom|);
      ghost var b := Indexes();
      CreateChange(hashes, key, b, {}, 0, info);
      assert {} + {id} == {id};
      idCount := idCount + 1;
      mapInfo := mapInfo[id := info];
      mapAddr := mapAddr[addr.service.ip := id];
      vRandom := vRandom + [id];
      assert Indexes() == Created(b, info);
    }

    method SwapRandom(p: int, q: int)
      requires Shape() && RandomOk(mapInfo, vRandom)
      requires p == q || (0 <= p < |vRandom| && 0 <= q < |vRandom|)
      modifies this`mapInfo, this`vRandom
      ensures Indexes() == Exchanged(old(Indexes()), p, q)
    {
      hide RandomOk, View;
      if p == q {
        return;
      }
      ghost var b := Indexes();
      SwapRandomOk(b, p, q);
      var id1, id2 := vRandom[p], vRandom[q];
      assert id1 in mapInfo && id2 in mapInfo;
      mapInfo := mapInfo[id1 := mapInfo[id1].(randomPos := q)];
      mapInfo := mapInfo[id2 := mapInfo[id2].(randomPos := p)];
      vRandom := vRandom[p := id2];
      vRandom := vRandom[q := id1];
      assert Indexes() == Swapped(b, p, q);
    }

    method Delete(id: int)
      requires Shape() && RandomOk(mapInfo, vRandom)
      requires id in mapInfo && !mapInfo[id].inTried && mapInfo[id].refCount == 0
      modifies this`mapInfo, this`mapAddr, this`vRandom, this`nNew
      ensures Indexes() == Deleted(old(Indexes()), id)
    {
      hide View, Swapped;
      ghost var b := Indexes();
      SwapRandom(mapInfo[id].randomPos, |vRandom| - 1);
      ExchangeKeeps(b, b.infos[id].randomPos, |b.random| - 1, id);
      vRandom := vRandom[..|vRandom| - 1];
      mapAddr := mapAddr - {mapInfo[id].Ip()};
      mapInfo := mapInfo - {id};
      nNew := nNew - 1;
    }

    method ClearNew(bucket: int, pos: int, ghost pending: set<int>, ghost skew: int)
      requires Holding(pending, skew) && InTable(Slot(bucket, pos), NEW_BUCKET_COUNT)
      requires Slot(bucket, pos) in View(vvNew) ==> View(vvNew)[Slot(bucket, pos)] !in pending
      modifies vvNew, this`mapInfo, this`mapAddr, this`vRandom, this`nNew
      ensures Holding(pending, skew)
      ensures View(vvNew) == old(View(vvNew)) - {Slot(bucket, pos)}
      ensures vvNew[bucket, pos] == -1
      ensures Cleared(old(mapInfo), old(View(vvNew)), Slot(bucket, pos), mapInfo)
    {
      hide Consistent, View, NewPos, TriedSlot, RandomOk, Deleted;
      ghost var b, s := Indexes(), Slot(bucket, pos);
      ViewAt(vvNew, s);
      SlotOccupant(hashes, key, b, pending, skew, s);
      if vvNew[bucket, pos] != -1 {
        var id := vvNew[bucket, pos];
        UnrefChange(hashes, key, b, pending, skew, s);
        mapInfo := mapInfo[id := mapInfo[id].(refCount := mapInfo[id].refCount - 1)];
        SetSlot(vvNew, Slot(bucket, pos), -1);
        assert Indexes() == Unreferenced(b, s);
        if mapInfo[id].refCount == 0 {
          DeleteChange(hashes, key, Indexes(), pending + {id}, skew, id);
          Delete(id);
          assert pending + {id} - {id} == pending;
        } else {
          SlotRange(hashes, key, b, pending, skew, id);
          Settle(hashes, key, Indexes(), pending + {id}, pending, skew);
        }
      }
    }

    /** First part of `MakeTried`: take the entry out of all new buckets. */
    method LeaveNew(id: int)
      requires Holding({}, 0) && id in mapInfo && !mapInfo[id].inTried
      modifies vvNew, this`mapInfo
      ensures Holding({id}, 0)
      ensures View(vvNew) == Without(old(View(vvNew)), id, NEW_BUCKET_COUNT)
      ensures mapInfo == old(mapInfo)[id := old(mapInfo)[id].(refCount := 0)]
    {
      hide Consistent, View, NewPos, TriedSlot;
      Settle(hashes, key, Indexes(), {}, {id}, 0);
      ghost var table := View(vvNew);
      ViewInTable(vvNew);
      for bucket := 0 to NEW_BUCKET_COUNT
        invariant Holding({id}, 0) && id in mapInfo
        invariant View(vvNew) == Without(table, id, bucket)
        invariant mapInfo == old(mapInfo)[id := old(mapInfo)[id].(refCount := mapInfo[id].refCount)]
      {
        var pos := NewPos(hashes, key, mapInfo[id].address.service, bucket);
        ghost var b, s := Indexes(), Slot(bucket, pos);
        ViewAt(vvNew, s);
        forall t | t in b.newTable && b.newTable[t] == id && t.bucket == bucket ensures t == s {
          SlotOccupant(hashes, key, b, {id}, 0, t);
        }
        if vvNew[bucket, pos] == id {
          IdsAreNatural(hashes, key, b, {id}, 0, id);
          UnrefChange(hashes, key, b, {id}, 0, s);
          SetSlot(vvNew, Slot(bucket, pos), -1);
          mapInfo := mapInfo[id := mapInfo[id].(refCount := mapInfo[id].refCount - 1)];
          assert Indexes() == Unreferenced(b, s);
          assert {id} + {id} == {id};
        }
      }
      AllForgotten(hashes, key, Indexes(), {id}, 0, id, table);
    }

    /** Second part of `MakeTried`: take the occupant `e` out of a tried slot. */
    method LeaveTried(s: Slot, ghost id: int) returns (e: int)
      requires Holding({id}, -1) && InTable(s, TRIED_BUCKET_COUNT) && s in View(vvTried)
      modifies vvTried, this`mapInfo, this`nTried
      ensures Holding({id} + {e}, -2)
      ensures e == old(View(vvTried))[s] && View(vvTried) == old(View(vvTried)) - {s}
      ensures e in old(mapInfo) && old(mapInfo)[e].inTried && old(mapInfo)[e].refCount == 0
      ensures mapInfo == old(mapInfo)[e := old(mapInfo)[e].(inTried := false)]
    {
      hide Consistent, View, NewSlot, TriedSlot, AllSlots;
      ghost var b := Indexes();
      ViewAt(vvTried, s);
      SlotOccupant(hashes, key, b, {id}, -1, s);
      e := vvTried[s.bucket, s.pos];
      UntryChange(hashes, key, b, {id}, -1, s);
      mapInfo := mapInfo[e := mapInfo[e].(inTried := false)];
      SetSlot(vvTried, s, -1);
      nTried := nTried - 1;
      assert Indexes() == Untried(b, s);
    }

    /** Clear a slot of the new table and give it to `id`. */
    method Take(id: int, s: Slot, ghost pending: set<int>, ghost skew: int)
      requires Holding(pending, skew) && id in mapInfo && !mapInfo[id].inTried && id in pending
      requires mapInfo[id].refCount < NEW_BUCKETS_PER_ADDRESS
      requires InTable(s, NEW_BUCKET_COUNT) && s.pos == NewPos(hashes, key, mapInfo[id].address.service, s.bucket)
      requires s in View(vvNew) ==> View(vvNew)[s] !in pending
      modifies vvNew, this`mapInfo, this`mapAddr, this`vRandom, this`nNew
      ensures Holding(pending - {id}, skew)
      ensures View(vvNew) == old(View(vvNew))[s := id]
      ensures mapInfo.Keys == old(mapInfo).Keys - Displaced(old(mapInfo), old(View(vvNew)), s)
      ensures forall i :: i in mapInfo ==>
        SameStats(mapInfo[i], old(mapInfo)[i]) && mapInfo[i].inTried == old(mapInfo)[i].inTried
      ensures forall i :: i in pending && i in old(mapInfo) ==>
        i in mapInfo && (i != id ==> mapInfo[i].refCount == old(mapInfo)[i].refCount)
    {
      hide Consistent, View, NewPos, SameStats, Displaced, Cleared;
      SlotOccupant(hashes, key, Indexes(), pending, skew, s);
      ClearNew(s.bucket, s.pos, pending, skew);
      ClearedPending(old(mapInfo), old(View(vvNew)), s, mapInfo, pending);
      ClearedThenReferenced(old(mapInfo), old(View(vvNew)), s, mapInfo, id, mapInfo[id].refCount + 1);
      Fill(id, s, pending, skew);
    }

    /** Fills an empty slot of the new table. */
    method Fill(id: int, s: Slot, ghost pending: set<int>, ghost skew: int)
      requires Holding(pending, skew) && id in mapInfo && !mapInfo[id].inTried && id in pending
      requires mapInfo[id].refCount < NEW_BUCKETS_PER_ADDRESS && s !in View(vvNew)
      requires InTable(s, NEW_BUCKET_COUNT) && s.pos == NewPos(hashes, key, mapInfo[id].address.service, s.bucket)
      modifies vvNew, this`mapInfo
      ensures Holding(pending - {id}, skew) && View(vvNew) == old(View(vvNew))[s := id]
      ensures mapInfo == old(mapInfo)[id := old(mapInfo)[id].(refCount := old(mapInfo)[id].refCount + 1)]
    {
      hide Consistent, View, NewPos;
      ghost var b := Indexes();
      IdsAreNatural(hashes, key, b, pending, skew, id);
      RefChange(hashes, key, b, pending, skew, id, s);
      mapInfo := mapInfo[id := mapInfo[id].(refCount := mapInfo[id].refCount + 1)];
      SetSlot(vvNew, s, id);
      assert Indexes() == Referenced(b, id, s);
    }

    /** Last part of `MakeTried`: enter the entry into its free tried slot. */
    method EnterTried(id: int, s: Slot)
      requires Holding({id}, -1) && id in mapInfo && mapInfo[id].refCount == 0 && !mapInfo[id].inTried
      requires s == TriedSlot(hashes, key, mapInfo[id].address.service) && s !in View(vvTried)
      modifies vvTried, this`mapInfo, this`nTried
      ensures Holding({}, 0)
      ensures View(vvTried) == old(View(vvTried))[s := id]
      ensures mapInfo == old(mapInfo)[id := old(mapInfo)[id].(inTried := true)]
    {
      hide Consistent, View, NewSlot, TriedSlot, AllSlots;
      ghost var b := Indexes();
      TryChange(hashes, key, b, {id}, -1, id);
      IdsAreNatural(hashes, key, b, {id}, -1, id);
      SetSlot(vvTried, s, id);
      nTried := nTried + 1;
      mapInfo := mapInfo[id := mapInfo[id].(inTried := true)];
      assert Indexes() == Tried(b, id, s);
      assert {id} - {id} == {};
    }

    /** Move the occupant of a tried slot back to the new table. */
    method Evict(s: Slot, ghost id: int) returns (e: int)
      requires Holding({id}, -1) && InTable(s, TRIED_BUCKET_COUNT) && s in View(vvTried)
      requires id in mapInfo && mapInfo[id].refCount == 0 && !mapInfo[id].inTried
      modifies vvNew, vvTried, this`mapInfo, this`mapAddr, this`vRandom, this`nNew, this`nTried
      ensures Holding({id}, -1)
      ensures e == old(View(vvTried))[s] && View(vvTried) == old(View(vvTried)) - {s}
      ensures e in old(mapInfo) && old(mapInfo)[e].inTried
      ensures var left := old(mapInfo)[e := old(mapInfo)[e].(inTried := false)];
        var target := NewSlot(hashes, key, old(mapInfo)[e].address.service, old(mapInfo)[e].source);
        && View(vvNew) == old(View(vvNew))[target := e]
        && mapInfo.Keys == left.Keys - Displaced(left, old(View(vvNew)), target)
        && (forall i :: i in mapInfo ==> SameStats(mapInfo[i], left[i]) && mapInfo[i].inTried == left[i].inTried)
      ensures id in mapInfo && mapInfo[id].refCount == 0
    {
      hide Consistent, View, NewSlot, TriedSlot, SameStats, Displaced;
      e := LeaveTried(s, id);
      var target := NewSlot(hashes, key, mapInfo[e].address.service, mapInfo[e].source);
      SlotOccupant(hashes, key, Indexes(), {id} + {e}, -2, target);
      Take(e, target, {id} + {e}, -2);
      assert {id} + {e} - {e} == {id};
      Recount(hashes, key, Indexes(), {id}, -2, 1);
      nNew := nNew + 1;
    }

    method MakeTried(id: int)
      requires Holding({}, 0) && id in mapInfo && !mapInfo[id].inTried
      modifies vvNew, vvTried, this`mapInfo, this`mapAddr, this`vRandom, this`nNew, this`nTried
      ensures Holding({}, 0)
      ensures MovedToTried(hashes, key, old(Indexes()), id, Indexes())
    {
      hide Consistent, View, NewSlot, TriedSlot, Without, MovedToTried, Displaced;
      LeaveNew(id);
      Recount(hashes, key, Indexes(), {id}, 0, -1);
      nNew := nNew - 1;
      var s := TriedSlot(hashes, key, mapInfo[id].address.service);
      ViewAt(vvTried, s);
      SlotOccupant(hashes, key, Indexes(), {id}, -1, s);
      if vvTried[s.bucket, s.pos] != -1 {
        ghost var e := Evict(s, id);
        ghost var mid := mapInfo;
        EnterTried(id, s);
        MoveEvicting(hashes, key, old(Indexes()), id, e, mid, Indexes());
      } else {
        EnterTried(id, s);
        MoveFree(hashes, key, old(Indexes()), id, Indexes());
      }
    }

    /** The search for a new bucket that holds `id`, starting at a random bucket; it cannot fail. */
    method FindNewBucket(id: int) returns (bucket: int)
      requires Holding({}, 0) && id in mapInfo && !mapInfo[id].inTried
      ensures 0 <= bucket < NEW_BUCKET_COUNT
      ensures vvNew[bucket, NewPos(hashes, key, mapInfo[id].address.service, bucket)] == id
    {
      hide Consistent, NewPos;
      ghost var s := InSomeBucket(hashes, key, Indexes(), id);
      ViewAt(vvNew, s);
      var start := RandomInt(NEW_BUCKET_COUNT);
      ghost var hit := (s.bucket - start) % NEW_BUCKET_COUNT;
      assert (hit + start) % NEW_BUCKET_COUNT == s.bucket;
      bucket := -1;
      var n := 0;
      while n < NEW_BUCKET_COUNT
        invariant 0 <= n <= hit
      {
        bucket := (n + start) % NEW_BUCKET_COUNT;
        if vvNew[bucket, NewPos(hashes, key, mapInfo[id].address.service, bucket)] == id {
          break;
        }
        n := n + 1;
      }
    }

    /** Second half of `Good`: move a marked entry to tried, or note a collision. */
    method Promote(id: int, testBeforeEvict: bool)
      requires Valid() && id in mapInfo && !mapInfo[id].inTried
      modifies vvNew, vvTried, this`mapInfo, this`mapAddr, this`vRandom, this`nNew, this`nTried, this`collisions
      ensures Valid()
      ensures TimesOk(old(mapInfo)) && old(mapInfo)[id].lastSuccess != 0 ==> TimesOk(mapInfo)
      ensures Promoted(hashes, key, old(Indexes()), old(collisions), id, testBeforeEvict, Indexes(), collisions)
    {
      hide Consistent, View, TriedSlot, MovedToTried, CollisionsOk, TimesOk;
      ghost var b := Indexes();
      var bucket := FindNewBucket(id);
      var s := TriedSlot(hashes, key, mapInfo[id].address.service);
      ViewAt(vvTried, s);
      if testBeforeEvict && vvTried[s.bucket, s.pos] != -1 {
        if |collisions| < TRIED_COLLISION_SIZE {
          CollisionAdded(hashes, key, b, id, collisions);
          collisions := collisions + {id};
        }
      } else {
        MakeTried(id);
        CollisionsAfterMove(hashes, key, b, id, Indexes(), collisions);
        if TimesOk(old(mapInfo)) && old(mapInfo)[id].lastSuccess != 0 {
          TimesAfterMove(hashes, key, b, id, Indexes());
        }
      }
    }

    method Good(addr: Service, testBeforeEvict: bool, time: int)
      requires Valid()
      modifies vvNew, vvTried, this`mapInfo, this`mapAddr, this`vRandom, this`nNew, this`nTried
      modifies this`lastGood, this`collisions
      ensures Valid() && lastGood == time
      ensures time > 0 && TimesOk(old(mapInfo)) ==> TimesOk(mapInfo)
      ensures MarkedGood(hashes, key, old(Indexes()), old(collisions), addr, testBeforeEvict, time,
                         Indexes(), collisions)
    {
      hide Consistent, View, TriedSlot, Promoted, CollisionsOk, TimesOk;
      lastGood := time;
      ghost var b := Indexes();
      EntriesAreIndexed(hashes, key, b, {}, 0);
      var found, id := Find(addr.ip);
      if !found || mapInfo[id].address.service != addr {
        return;
      }
      MarkChange(hashes, key, b, id, time, collisions);
      mapInfo := mapInfo[id := Marked(mapInfo[id], time)];
      assert Indexes() == Replaced(b, id, Marked(b.infos[id], time));
      if mapInfo[id].inTried {
        return;
      }
      Promote(id, testBeforeEvict);
    }

    /** Second half of `Add`: give the entry the new-table slot chosen by the source, if it may have it. */
    method Place(id: int, source: NetAddr, now: int)
      requires Holding({id}, 0) && id in mapInfo && !mapInfo[id].inTried
      requires mapInfo[id].refCount < NEW_BUCKETS_PER_ADDRESS
      modifies vvNew, this`mapInfo, this`mapAddr, this`vRandom, this`nNew
      ensures Holding({}, 0)
      ensures Placed(hashes, key, old(Indexes()), id, source, now, Indexes())
    {
      hide Consistent, View, NewSlot, TriedSlot, IsTerrible, NewPos, RandomOk, Deleted, Displaced;
      ghost var b := Indexes();
      var s := NewSlot(hashes, key, mapInfo[id].address.service, source);
      ViewAt(vvNew, s);
      SlotOccupant(hashes, key, b, {id}, 0, s);
      IdsAreNatural(hashes, key, b, {id}, 0, id);
      RefsNonNegative(hashes, key, b, {id}, 0, id);
      if vvNew[s.bucket, s.pos] != id {
        var insert := vvNew[s.bucket, s.pos] == -1;
        if !insert {
          var existing := mapInfo[vvNew[s.bucket, s.pos]];
          insert := IsTerrible(existing, now) || (existing.refCount > 1 && mapInfo[id].refCount == 0);
        }
        if insert {
          Take(id, s, {id}, 0);
          assert {id} - {id} == {};
        } else if mapInfo[id].refCount == 0 {
          DeleteChange(hashes, key, b, {id}, 0, id);
          Delete(id);
          assert {id} - {id} == {};
        } else {
          Settle(hashes, key, Indexes(), {id}, {}, 0);
        }
      } else {
        Settle(hashes, key, Indexes(), {id}, {}, 0);
      }
    }

    /** First half of `Add` for an unknown address. */
    method Introduce(addr: Address, source: NetAddr, penalty: int) returns (id: int)
      requires Valid() && addr.service.ip !in mapAddr
      modifies this`idCount, this`mapInfo, this`mapAddr, this`vRandom, this`nNew
      ensures Holding({id}, 0) && id == old(idCount)
      ensures id in mapInfo && mapInfo[id].refCount == 0 && !mapInfo[id].inTried
      ensures CollisionsOk(hashes, key, Indexes(), collisions)
      ensures TimesOk(old(mapInfo)) ==> TimesOk(mapInfo)
      ensures Indexes() == Introduced(old(Indexes()), addr, source, penalty)
    {
      hide Consistent, View, CollisionsOk, TimesOk;
      ghost var b := Indexes();
      IntroduceChange(hashes, key, b, addr, source, penalty, collisions);
      id := Create(addr, source);
      var info := mapInfo[id];
      mapInfo := mapInfo[id := info.(address := info.address.(time := ToUint32(Max(0, info.address.time - penalty))))];
      nNew := nNew + 1;
      assert mapInfo == b.infos[id := Announced(addr, source, penalty, |b.random|)];
    }

    /** `nFactor`: how many times harder one more reference has become. */
    static method Hardness(refCount: int) returns (factor: int)
      ensures factor == if refCount <= 0 then 1 else Pow2(refCount)
    {
      factor := 1;
      var n := 0;
      while n < refCount
        invariant 0 <= n && factor == Pow2(n) && (n == 0 || n <= refCount)
      {
        factor := factor * 2;
        n := n + 1;
      }
    }

    /** First half of `Add` for a known address; `refile` says that it has won another slot. */
    method Refresh(id: int, addr: Address, penalty: int, now: int) returns (refile: bool)
      requires Valid() && id in mapInfo
      modifies this`mapInfo
      ensures Valid()
      ensures TimesOk(old(mapInfo)) ==> TimesOk(mapInfo)
      ensures Indexes() == Replaced(old(Indexes()), id, Refreshed(old(mapInfo)[id], addr, penalty, now))
      ensures refile ==> MayRefile(mapInfo[id], addr) && mapInfo[id].refCount < NEW_BUCKETS_PER_ADDRESS
    {
      hide Consistent, View, CollisionsOk, TimesOk, Refreshed;
      ghost var b := Indexes();
      var info := Refreshed(mapInfo[id], addr, penalty, now);
      RefreshedIdentity(mapInfo[id], addr, penalty, now);
      RefreshChange(hashes, key, b, id, info, collisions);
      mapInfo := mapInfo[id := info];
      assert Indexes() == Replaced(b, id, info);
      if !MayRefile(info, addr) {
        return false;
      }
      SlotRange(hashes, key, Indexes(), {}, 0, id);
      var factor := Hardness(info.refCount);
      if factor > 1 {
        var coin := RandomInt(factor);
        return coin == 0;
      }
      return true;
    }

    /** `seen` and `now` are what the clock shows the two times it is read. */
    method Add(addr: Address, source: NetAddr, timePenalty: int, seen: int, now: int) returns (isNew: bool)
      requires Valid()
      modifies vvNew, this`idCount, this`mapInfo, this`mapAddr, this`vRandom, this`nNew
      ensures Valid()
      ensures TimesOk(old(mapInfo)) ==> TimesOk(mapInfo)
      ensures Added(hashes, key, old(Indexes()), addr, source, timePenalty, seen, now, isNew, Indexes())
    {
      hide Consistent, View, CollisionsOk, TimesOk, Placed, Refreshed, Introduced;
      if !hashes.isRoutable(addr.service.ip) {
        return false;
      }
      EntriesAreIndexed(hashes, key, Indexes(), {}, 0);
      var found, id := Find(addr.service.ip);
      var penalty := if addr.service.ip == source then 0 else timePenalty;
      if found {
        var refile := Refresh(id, addr, penalty, seen);
        if !refile {
          return false;
        }
        Settle(hashes, key, Indexes(), {}, {id}, 0);
      } else {
        id := Introduce(addr, source, penalty);
      }
      ghost var d := Indexes();
      Place(id, source, now);
      CollisionsAfterPlace(hashes, key, d, id, source, now, Indexes(), collisions);
      isNew := !found;
    }

    method Attempt(addr: Service, countFailure: bool, time: int)
      requires Valid()
      modifies this`mapInfo
      ensures Valid()
      ensures time >= 0 && TimesOk(old(mapInfo)) ==> TimesOk(mapInfo)
      ensures var last := lastGood;
        Indexes() == EachEntry(old(Indexes()), info => Attempted(info, addr, countFailure, time, last))
    {
      hide Consistent, View, CollisionsOk, TimesOk, EachEntry;
      ghost var b := Indexes();
      ghost var last := lastGood;
      OneEntry(hashes, key, b, {}, 0, addr, info => Attempted(info, addr, countFailure, time, last));
      var found, id := Find(addr.ip);
      if !found || mapInfo[id].address.service != addr {
        return;
      }
      var info := mapInfo[id].(lastTry := time);
      if countFailure && info.lastCountAttempt < lastGood {
        info := info.(lastCountAttempt := time, attempts := info.attempts + 1);
      }
      StandingChange(hashes, key, b, id, info, collisions);
      mapInfo := mapInfo[id := info];
      assert Indexes() == Replaced(b, id, info);
    }

    method Connected(addr: Service, time: int)
      requires Valid()
      modifies this`mapInfo
      ensures Valid()
      ensures TimesOk(old(mapInfo)) ==> TimesOk(mapInfo)
      ensures Indexes() == EachEntry(old(Indexes()), info => Seen(info, addr, time))
    {
      hide Consistent, View, CollisionsOk, TimesOk, ToUint32, EachEntry;
      ghost var b := Indexes();
      OneEntry(hashes, key, b, {}, 0, addr, info => Seen(info, addr, time));
      var found, id := Find(addr.ip);
      if !found || mapInfo[id].address.service != addr {
        return;
      }
      if time - mapInfo[id].address.time > 20 * 60 {
        var info := mapInfo[id].(address := mapInfo[id].address.(time := ToUint32(time)));
        RefreshChange(hashes, key, b, id, info, collisions);
        mapInfo := mapInfo[id := info];
        assert Indexes() == Replaced(b, id, info);
      }
    }

    method SetServices(addr: Service, services: bv64)
      requires Valid()
      modifies this`mapInfo
      ensures Valid()
      ensures TimesOk(old(mapInfo)) ==> TimesOk(mapInfo)
      ensures Indexes() == EachEntry(old(Indexes()), info => Serving(info, addr, services))
    {
      hide Consistent, View, CollisionsOk, TimesOk, EachEntry;
      ghost var b := Indexes();
      OneEntry(hashes, key, b, {}, 0, addr, info => Serving(info, addr, services));
      var found, id := Find(addr.ip);
      if !found || mapInfo[id].address.service != addr {
        return;
      }
      var info := mapInfo[id].(address := mapInfo[id].address.(services := services));
      RefreshChange(hashes, key, b, id, info, collisions);
      mapInfo := mapInfo[id := info];
      assert Indexes() == Replaced(b, id, info);
    }

    /** Draws a random entry among those from position `n` on and moves it there. */
    method Draw(n: int) returns (info: Info)
      requires Holding({}, 0) && 0 <= n < |vRandom|
      modifies this`mapInfo, this`vRandom
      ensures Holding({}, 0) && |vRandom| == |old(vRandom)|
      ensures SameEntries(mapInfo, old(mapInfo))
      ensures forall k :: 0 <= k < n ==> vRandom[k] == old(vRandom)[k]
      ensures vRandom[n] in mapInfo && info == mapInfo[vRandom[n]]
    {
      hide Consistent, View, SameEntries, Exchanged, RandomOk;
      var r := RandomInt(|vRandom| - n);
      ExchangeChange(hashes, key, Indexes(), {}, 0, n, r + n);
      SwapRandom(n, r + n);
      EntryAt(hashes, key, Indexes(), {}, 0, n);
      info := mapInfo[vRandom[n]];
    }

    /**
     * The loop of `GetAddr`; `places` are the positions of the sampled entries in the new order, and `readings` what
     * the clock showed when the entry at each position was judged.
     */
    method Sample(nodes: int) returns (sample: seq<Address>, ghost places: seq<int>, ghost readings: seq<int>)
      requires Holding({}, 0) && nodes >= 0
      modifies this`mapInfo, this`vRandom
      ensures Holding({}, 0)
      ensures SameEntries(mapInfo, old(mapInfo))
      ensures |sample| <= nodes && |readings| <= |vRandom| && (|sample| < nodes ==> |readings| == |vRandom|)
      ensures Sampled(old(mapInfo), vRandom, readings, places, sample)
    {
      hide Consistent, View, IsTerrible, SameEntries, Exchanged, RandomOk, Sampled;
      SameEntriesReflexive(mapInfo);
      ghost var done: seq<int> := [];
      sample, places, readings := [], [], [];
      NoneSampled(mapInfo);
      for n := 0 to |vRandom|
        invariant Holding({}, 0) && |vRandom| == |old(vRandom)|
        invariant SameEntries(mapInfo, old(mapInfo))
        invariant |sample| <= nodes
        invariant |done| == |readings| == n && done <= vRandom
        invariant Sampled(old(mapInfo), done, readings, places, sample)
      {
        if |sample| >= nodes {
          SampledMore(old(mapInfo), done, vRandom, readings, places, sample);
          return;
        }
        ghost var before := mapInfo;
        var info := Draw(n);
        SameEntriesTransitive(mapInfo, before, old(mapInfo));
        ghost var id := vRandom[n];
        var now := GetAdjustedTime();
        SampledNext(old(mapInfo), mapInfo, done, readings, places, sample, id, now);
        done, readings := done + [id], readings + [now];
        if !IsTerrible(info, now) {
          sample := sample + [info.address];
          places := places + [n];
        }
      }
      SampledMore(old(mapInfo), done, vRandom, readings, places, sample);
    }

    /** A random sample of good entries, without repetition and of bounded size. */
    method GetAddr() returns (sample: seq<Address>, ghost readings: seq<int>)
      requires Valid()
      modifies this`mapInfo, this`vRandom
      ensures Valid()
      ensures TimesOk(old(mapInfo)) ==> TimesOk(mapInfo)
      ensures SameEntries(mapInfo, old(mapInfo))
      ensures Indexes() == old(Indexes()).(infos := mapInfo, random := vRandom)
      ensures |sample| <= GETADDR_MAX && 100 * |sample| <= GETADDR_MAX_PCT * |mapInfo|
      ensures forall a :: a in sample ==> exists i :: i in mapInfo && mapInfo[i].address == a
      ensures forall j, k :: 0 <= j < k < |sample| ==> sample[j].service.ip != sample[k].service.ip
      ensures |sample| < Min(GETADDR_MAX, GETADDR_MAX_PCT * |mapInfo| / 100) ==> |readings| == |vRandom|
      ensures |readings| <= |vRandom| && forall n :: 0 <= n < |readings| ==>
        && vRandom[n] in mapInfo
        && (mapInfo[vRandom[n]].address in sample <==> !IsTerrible(mapInfo[vRandom[n]], readings[n]))
    {
      hide Consistent, View, CollisionsOk, TimesOk, IsTerrible, SameEntries;
      ghost var b := Indexes();
      OrderIsComplete(hashes, key, b);
      var nodes := GETADDR_MAX_PCT * |vRandom| / 100;
      if nodes > GETADDR_MAX {
        nodes := GETADDR_MAX;
      }
      ghost var places;
      sample, places, readings := Sample(nodes);
      SameEntriesKeys(mapInfo, b.infos);
      CollisionsUpToPos(hashes, key, b, mapInfo, vRandom, collisions);
      assert Indexes() == b.(infos := mapInfo, random := vRandom);
      SampleFacts(hashes, key, Indexes(), b.infos, readings, places, sample);
    }

    /** Decides what to do about one noted collision; `erase` says that it is settled. */
    method ResolveCollision(idNew: int) returns (erase: bool, ghost clock: Readings)
      requires Valid() && idNew in collisions
      modifies vvNew, vvTried, this`mapInfo, this`mapAddr, this`vRandom, this`nNew, this`nTried
      modifies this`lastGood, this`collisions
      ensures Valid() && collisions == old(collisions)
      ensures TimesOk(old(mapInfo)) ==> TimesOk(mapInfo)
      ensures Resolved(hashes, key, old(Indexes()), idNew, clock, erase, Indexes())
      ensures lastGood == if clock.marking > 0 then clock.marking else old(lastGood)
    {
      hide Consistent, View, TriedSlot, TimesOk, MarkedGood;
      clock := Readings(0, 0, 0, 0);
      if idNew !in mapInfo {
        return true, clock;
      }
      var infoNew := mapInfo[idNew];
      var s := TriedSlot(hashes, key, infoNew.address.service);
      if !hashes.isValid(infoNew.Ip()) {
        return true, clock;
      }
      ViewAt(vvTried, s);
      // The slot that caused the collision is still taken.
      assert vvTried[s.bucket, s.pos] != -1;
      SlotOccupant(hashes, key, Indexes(), {}, 0, s);
      var infoOld := mapInfo[vvTried[s.bucket, s.pos]];
      var now := GetAdjustedTime();
      clock := clock.(success := now);
      if now - infoOld.lastSuccess < REPLACEMENT_HOURS * (60 * 60) {
        return true, clock;
      }
      now := GetAdjustedTime();
      clock := clock.(attempt := now);
      if now - infoOld.lastTry < REPLACEMENT_HOURS * (60 * 60) {
        now := GetAdjustedTime();
        clock := clock.(grace := now);
        if now - infoOld.lastTry > 60 {
          now := GetAdjustedTime();
          clock := clock.(marking := now);
          GoodKeepsCollisions(infoNew.address.service, now);
          return true, clock;
        }
      }
      return false, clock;
    }

    /** `Good` without the test before eviction. */
    method GoodKeepsCollisions(addr: Service, time: int)
      requires Valid() && time > 0
      modifies vvNew, vvTried, this`mapInfo, this`mapAddr, this`vRandom, this`nNew, this`nTried
      modifies this`lastGood, this`collisions
      ensures Valid() && collisions == old(collisions) && lastGood == time
      ensures TimesOk(old(mapInfo)) ==> TimesOk(mapInfo)
      ensures MarkedGood(hashes, key, old(Indexes()), {}, addr, false, time, Indexes(), {})
    {
      hide Consistent, View, TriedSlot, TimesOk, CollisionsOk, MovedToTried;
      Good(addr, false, time);
    }

    /** One visit, which erases the collision if it is settled; otherwise nothing changes. */
    method VisitCollision(id: int) returns (ghost v: Visit)
      requires Valid() && id in collisions
      modifies vvNew, vvTried, this`mapInfo, this`mapAddr, this`vRandom, this`nNew, this`nTried
      modifies this`lastGood, this`collisions
      ensures Valid() && v.id == id && collisions == if v.erase then old(collisions) - {id} else old(collisions)
      ensures TimesOk(old(mapInfo)) ==> TimesOk(mapInfo)
      ensures Resolved(hashes, key, old(Indexes()), id, v.clock, v.erase, Indexes())
      ensures lastGood == if v.clock.marking > 0 then v.clock.marking else old(lastGood)
      ensures mapInfo.Keys <= old(mapInfo).Keys && (!v.erase ==> Indexes() == old(Indexes()))
    {
      hide Consistent, View, TriedSlot, TimesOk, Resolved, CollisionsOk;
      ghost var before := Indexes();
      ghost var clock;
      var erase;
      erase, clock := ResolveCollision(id);
      ResolvedKeepsEntries(hashes, key, before, id, clock, erase, Indexes());
      if erase {
        FewerNoted(hashes, key, Indexes(), collisions, collisions - {id});
        collisions := collisions - {id};
      }
      v := Visit(id, clock, erase);
    }

    /**
     * The collisions are visited in an arbitrary order. No collision and no entry is added, and the tables change
     * only when some collision is settled.
     */
    method ResolveCollisions() returns (ghost visits: seq<Visit>, ghost books: seq<Book>)
      requires Valid()
      modifies vvNew, vvTried, this`mapInfo, this`mapAddr, this`vRandom, this`nNew, this`nTried
      modifies this`lastGood, this`collisions
      ensures Valid() && collisions <= old(collisions)
      ensures AllVisited(hashes, key, old(collisions), visits, books, collisions)
      ensures books[0] == old(Indexes()) && books[|visits|] == Indexes()
      ensures lastGood == LastMarking(visits, old(lastGood))
      ensures TimesOk(old(mapInfo)) ==> TimesOk(mapInfo)
      ensures mapInfo.Keys <= old(mapInfo).Keys
      ensures collisions == old(collisions) ==> Indexes() == old(Indexes())
    {
      hide Consistent, View, TriedSlot, TimesOk, Resolved, CollisionsOk, AllVisited, LastMarking;
      var todo := collisions;
      ghost var noted, left := {}, {};
      visits, books := [], [Indexes()];
      NoneVisited(hashes, key, Indexes(), lastGood);
      while todo != {}
        invariant Valid() && todo <= collisions <= old(collisions)
        invariant noted == old(collisions) - todo && left <= noted && collisions == left + todo
        invariant |books| == |visits| + 1 && books[0] == old(Indexes()) && books[|visits|] == Indexes()
        invariant AllVisited(hashes, key, noted, visits, books, left)
        invariant lastGood == LastMarking(visits, old(lastGood))
        invariant TimesOk(old(mapInfo)) ==> TimesOk(mapInfo)
        invariant mapInfo.Keys <= old(mapInfo).Keys
        invariant collisions == old(collisions) ==> Indexes() == old(Indexes())
        decreases todo
      {
        var id := Common.Pick(todo);
        ghost var v := VisitCollision(id);
        VisitedNext(hashes, key, noted, visits, books, left, v, Indexes());
        visits, books := visits + [v], books + [Indexes()];
        noted := noted + {id};
        left := if v.erase then left else left + {id};
        todo := todo - {id};
      }
      assert left == collisions && noted == old(collisions);
    }

    /** Picks the occupant of a contested tried slot; it is always a live entry. */
    method SelectTriedCollision() returns (found: bool, pick: int)
      requires Valid()
      modifies this`collisions
      ensures Valid()
      ensures !found ==>
        || collisions == old(collisions) == {}
        || exists id :: id in old(collisions) && id !in mapInfo && collisions == old(collisions) - {id}
      ensures found ==> pick in mapInfo && mapInfo[pick].inTried && collisions == old(collisions)
      ensures found ==> exists id ::
        && id in collisions && id in mapInfo
        && TriedSlot(hashes, key, mapInfo[id].address.service) == TriedSlot(hashes, key, mapInfo[pick].address.service)
    {
      hide Consistent, View, TriedSlot;
      if collisions == {} {
        return false, -1;
      }
      var idNew := Common.Pick(collisions);
      if idNew !in mapInfo {
        collisions := collisions - {idNew};
        return false, -1;
      }
      var s := TriedSlot(hashes, key, mapInfo[idNew].address.service);
      ViewAt(vvTried, s);
      SlotOccupant(hashes, key, Indexes(), {}, 0, s);
      return true, vvTried[s.bucket, s.pos];
    }
  }

  /** A call to the manager, with the caller's arguments. */
  datatype Call =
    | CallAdd(addr: Address, source: NetAddr, timePenalty: int, seen: int, now: int)
    | CallGood(service: Service, testBeforeEvict: bool, time: int)
    | CallAttempt(service: Service, countFailure: bool, time: int)
    | CallConnected(service: Service, time: int)
    | CallSetServices(service: Service, services: bv64)
    | CallGetAddr
    | CallResolveCollisions
    | CallSelectTriedCollision

  predicate PositiveTime(c: Call) {
    match c
    case CallGood(_, _, time) => time > 0
    case CallAttempt(_, _, time) => time > 0
    case _ => true
  }

  /** What calls see and change. */
  datatype State = State(book: Book, collisions: set<int>, lastGood: int)

  /** One call takes a manager from `s` to `t`, for some random numbers and some time. */
  ghost predicate Did(h: Hashes, key: Key, c: Call, s: State, t: State) {
    match c
    case CallAdd(addr, source, timePenalty, seen, now) =>
      && (exists isNew :: Added(h, key, s.book, addr, source, timePenalty, seen, now, isNew, t.book))
      && t == s.(book := t.book)
    case CallGood(service, testBeforeEvict, time) =>
      && MarkedGood(h, key, s.book, s.collisions, service, testBeforeEvict, time, t.book, t.collisions)
      && t.lastGood == time
    case CallAttempt(service, countFailure, time) =>
      t == s.(book := EachEntry(s.book, info => Attempted(info, service, countFailure, time, s.lastGood)))
    case CallConnected(service, time) =>
      t == s.(book := EachEntry(s.book, info => Seen(info, service, time)))
    case CallSetServices(service, services) =>
      t == s.(book := EachEntry(s.book, info => Serving(info, service, services)))
    case CallGetAddr =>
      && SameEntries(t.book.infos, s.book.infos)
      && t == s.(book := s.book.(infos := t.book.infos, random := t.book.random))
    case CallResolveCollisions =>
      exists visits, books ::
        && AllVisited(h, key, s.collisions, visits, books, t.collisions)
        && books[0] == s.book && books[|visits|] == t.book && t.lastGood == LastMarking(visits, s.lastGood)
    case CallSelectTriedCollision =>
      t == s || exists id :: id in s.collisions && id !in s.book.infos && t == s.(collisions := s.collisions - {id})
  }

  /** A whole run: the first state is that of a new manager, and each call takes one state to the next. */
  ghost predicate Ran(h: Hashes, key: Key, calls: seq<Call>, states: seq<State>) {
    && |states| == |calls| + 1 && states[0] == State(EMPTY, {}, 1)
    && forall n :: 0 <= n < |calls| ==> Did(h, key, calls[n], states[n], states[n + 1])
  }

  lemma NothingRan(h: Hashes, key: Key)
    ensures Ran(h, key, [], [State(EMPTY, {}, 1)])
  {
  }

  lemma RanNext(h: Hashes, key: Key, calls: seq<Call>, states: seq<State>, c: Call, t: State)
    requires Ran(h, key, calls, states) && Did(h, key, c, states[|calls|], t)
    ensures Ran(h, key, calls + [c], states + [t])
  {
    hide Did;
    var all, more := calls + [c], states + [t];
    forall n | 0 <= n < |all| ensures Did(h, key, all[n], more[n], more[n + 1]) {
      if n < |calls| {
        assert all[n] == calls[n] && more[n] == states[n] && more[n + 1] == states[n + 1];
      }
    }
  }

  /** One call, with the states before and after it. */
  method Perform(m: Manager, c: Call, ghost s: State) returns (ghost t: State)
    requires m.Valid() && s == State(m.Indexes(), m.collisions, m.lastGood)
    modifies m, m.vvNew, m.vvTried
    ensures m.Valid()
    ensures t == State(m.Indexes(), m.collisions, m.lastGood) && Did(m.hashes, m.key, c, s, t)
    ensures m.key == old(m.key)
    ensures PositiveTime(c) && TimesOk(old(m.mapInfo)) ==> TimesOk(m.mapInfo)
  {
    hide Consistent, CollisionsOk, TimesOk, View, TriedSlot, Added, MarkedGood, SameEntries, ToUint32, EachEntry;
    hide AllVisited, LastMarking;
    match c {
      case CallAdd(addr, source, timePenalty, seen, now) =>
        var isNew := m.Add(addr, source, timePenalty, seen, now);
      case CallGood(service, testBeforeEvict, time) =>
        m.Good(service, testBeforeEvict, time);
      case CallAttempt(service, countFailure, time) =>
        m.Attempt(service, countFailure, time);
      case CallConnected(service, time) =>
        m.Connected(service, time);
      case CallSetServices(service, services) =>
        m.SetServices(service, services);
      case CallGetAddr =>
        var sample, readings := m.GetAddr();
      case CallResolveCollisions =>
        ghost var visits, books := m.ResolveCollisions();
      case CallSelectTriedCollision =>
        var found, pick := m.SelectTriedCollision();
    }
    t := State(m.Indexes(), m.collisions, m.lastGood);
  }

  /**
   * Every run of calls on a new manager, whatever the random numbers and the
   * clock do, goes through the states the calls lead to and ends in a consistent
   * one, so no assertion on the way fires; with positive times the time stamps
   * pass the debug check as well.
   */
  method Run(hashes: Hashes, key: Key, calls: seq<Call>) returns (m: Manager, ghost states: seq<State>)
    ensures m.Valid()
    ensures Ran(hashes, key, calls, states) && states[|calls|] == State(m.Indexes(), m.collisions, m.lastGood)
    ensures (forall c :: c in calls ==> PositiveTime(c)) ==> TimesOk(m.mapInfo)
  {
    hide Consistent, CollisionsOk, TimesOk, View, Did, Ran;
    m := new Manager(hashes, key);
    states := [State(EMPTY, {}, 1)];
    NothingRan(hashes, key);
    for n := 0 to |calls|
      invariant m.Valid() && fresh(m) && fresh(m.vvNew) && fresh(m.vvTried) && m.hashes == hashes && m.key == key
      invariant Ran(hashes, key, calls[..n], states) && |states| == n + 1
      invariant states[n] == State(m.Indexes(), m.collisions, m.lastGood)
      invariant (forall c :: c in calls ==> PositiveTime(c)) ==> TimesOk(m.mapInfo)
    {
      assert calls[n] in calls && calls[..n + 1] == calls[..n] + [calls[n]];
      ghost var t := Perform(m, calls[n], states[n]);
      RanNext(hashes, key, calls[..n], states, calls[n], t);
      states := states + [t];
    }
    assert calls[..|calls|] == calls;
  }

  /** Two addresses that want the same slot: the second is reported as added and forgotten at once. */
  method AddForgets() returns (m: Manager, isNew: bool)
    ensures m.Valid() && isNew && 2 !in m.mapAddr
  {
    hide Consistent, View, CollisionsOk, Added;
    var hashes := Hashes((k, s) => 0, (k, a, b) => 0, (k, b, i, s) => 0, a => true, a => true);
    var first := Address(Service(1, 8333), 0, 1_000_000);
    var second := Address(Service(2, 8333), 0, 1_000_000);
    m := new Manager(hashes, 0);
    isNew := m.Add(first, 3, 0, 1_000_000, 1_000_000);
    ghost var b := m.Indexes();
    AddedIsNew(hashes, 0, EMPTY, first, 3, 0, 1_000_000, 1_000_000, isNew, b);
    FirstAdded(hashes, 0, first, 3, 0, 1_000_000, 1_000_000, b);
    SecondIsNew(hashes, 0, b, first, 2);
    isNew := m.Add(second, 3, 0, 1_000_000, 1_000_000);
    AddedIsNew(hashes, 0, b, second, 3, 0, 1_000_000, 1_000_000, isNew, m.Indexes());
    AddRemembers(hashes, 0, b, second, 3, 0, 1_000_000, 1_000_000, m.Indexes());
  }

  lemma AddedIsNew(h: Hashes, key: Key, b: Book, addr: Address, source: NetAddr, penalty: int, seen: int, now: int,
                   isNew: bool, c: Book)
    requires Added(h, key, b, addr, source, penalty, seen, now, isNew, c)
    requires h.isRoutable(addr.service.ip) && addr.service.ip !in b.addrs
    ensures isNew
  {
  }

  lemma SecondIsNew(h: Hashes, key: Key, b: Book, first: Address, ip: NetAddr)
    requires Consistent(h, key, b, {}, 0) && b.infos.Keys == {0} && b.infos[0].Ip() == first.service.ip != ip
    ensures ip !in b.addrs
  {
  }
}
