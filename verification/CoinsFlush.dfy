/**
 * What flushing a cache into the level below writes, entry by entry, and why
 * the level below then shows exactly what the cache showed before.
 */
module CoinsFlush {
  import opened Common
  import opened CoinsModel

  ghost predicate InjectiveRoot(root: Tree -> Hash) {
    forall a, b :: root(a) == root(b) ==> a == b
  }

  function Lookup<K, V>(m: map<K, V>, k: K): Option<V> {
    if k in m then Some(m[k]) else None
  }

  /** What becomes of the parent's coin entry when the child's entry is written to it. */
  function MergeCoin(us: Option<CoinEntry>, them: CoinEntry): Option<CoinEntry> {
    if !them.dirty then us
    else match us
      case None =>
        if them.fresh_ && them.coin.IsSpent() then None else Some(CoinEntry(them.coin, true, them.fresh_))
      case Some(u) =>
        if u.fresh_ && them.coin.IsSpent() then None else Some(u.(coin := them.coin, dirty := true))
  }

  /** The "FRESH flag misapplied" error. */
  predicate Misapplied(us: Option<CoinEntry>, them: CoinEntry) {
    them.dirty && them.fresh_ && us.Some? && !us.value.coin.IsSpent()
  }

  function MergeAnchor(us: Option<AnchorEntry>, them: AnchorEntry): Option<AnchorEntry> {
    if !them.dirty then us
    else match us
      case None => Some(AnchorEntry(them.entered, them.tree, true))
      case Some(u) => if u.entered != them.entered then Some(u.(entered := them.entered, dirty := true)) else us
  }

  function MergeNullifier(us: Option<NullifierEntry>, them: NullifierEntry): Option<NullifierEntry> {
    if !them.dirty then us
    else match us
      case None => Some(NullifierEntry(them.entered, true))
      case Some(u) => if u.entered != them.entered then Some(NullifierEntry(them.entered, true)) else us
  }

  /** The database drops spent coins and keeps the others. */
  function WriteCoin(us: Option<Coin>, them: CoinEntry): Option<Coin> {
    if !them.dirty then us else if them.coin.IsSpent() then None else Some(them.coin)
  }

  function WriteAnchor(us: Option<Tree>, them: AnchorEntry): Option<Tree> {
    if !them.dirty then us else if them.entered then Some(them.tree) else None
  }

  /** `parent` after all entries of `child` were written to it. */
  function Merged<K(==), V, W>(parent: map<K, V>, child: map<K, W>, merge: (Option<V>, W) -> Option<V>): map<K, V> {
    map k | k in parent.Keys + child.Keys && MergedAt(parent, child, merge, k).Some? ::
      MergedAt(parent, child, merge, k).value
  }

  function MergedAt<K, V, W>(parent: map<K, V>, child: map<K, W>, merge: (Option<V>, W) -> Option<V>, k: K): Option<V> {
    if k in child then merge(Lookup(parent, k), child[k]) else Lookup(parent, k)
  }

  lemma LookupMerged<K, V, W>(parent: map<K, V>, child: map<K, W>, merge: (Option<V>, W) -> Option<V>, k: K)
    ensures Lookup(Merged(parent, child, merge), k) == MergedAt(parent, child, merge, k)
  {
  }

  lemma NothingMerged<K, V, W>(parent: map<K, V>, child: map<K, W>, merge: (Option<V>, W) -> Option<V>)
    ensures Merged(parent, child - child.Keys, merge) == parent
  {
  }

  /** One more entry written. */
  lemma MergeOne<K, V, W>(parent: map<K, V>, child: map<K, W>, merge: (Option<V>, W) -> Option<V>, todo: set<K>, k: K)
    requires k in todo && todo <= child.Keys
    ensures Merged(parent, child - (todo - {k}), merge) ==
      match merge(Lookup(Merged(parent, child - todo, merge), k), child[k])
      case None => Merged(parent, child - todo, merge) - {k}
      case Some(v) => Merged(parent, child - todo, merge)[k := v]
  {
    LookupMerged(parent, child - todo, merge, k);
  }

  function Cleared(c: Cache): Cache { Cache(map[], map[], map[], c.hashBlock, c.hashAnchor) }

  /** The parent cache after the child's flush. */
  function Absorbed(p: Cache, c: Cache): Cache {
    Cache(Merged(p.coins, c.coins, MergeCoin), Merged(p.anchors, c.anchors, MergeAnchor),
          Merged(p.nullifiers, c.nullifiers, MergeNullifier), c.hashBlock, c.hashAnchor)
  }

  function StoredNullifiers(db: set<Hash>, c: map<Hash, NullifierEntry>): set<Hash> {
    set nf | nf in db + c.Keys && if nf in c && c[nf].dirty then c[nf].entered else nf in db
  }

  /** The database after the bottom cache's flush. */
  function Stored(db: Database, c: Cache): Database {
    Database(Merged(db.coins, c.coins, WriteCoin), Merged(db.anchors, c.anchors, WriteAnchor),
             StoredNullifiers(db.nullifiers, c.nullifiers),
             c.hashBlock, if c.hashAnchor != 0 then c.hashAnchor else db.bestAnchor)
  }

  /** The state after flushing cache `k`. */
  function Flushed(s: State, k: int): State
    requires 0 <= k < |s.caches|
  {
    if k == 0 then State(Stored(s.db, s.caches[0]), s.caches[0 := Cleared(s.caches[0])])
    else s.(caches := s.caches[k - 1 := Absorbed(s.caches[k - 1], s.caches[k])][k := Cleared(s.caches[k])])
  }

  // Entry by entry: `below` is what lies under the parent.

  lemma MergeCoinOk(us: Option<CoinEntry>, them: CoinEntry, below: Option<Coin>)
    requires us.Some? ==> CoinEntryOk(us.value, below)
    requires CoinEntryOk(them, if us.Some? then Shown(us.value) else below)
    ensures !Misapplied(us, them)
    ensures var r := MergeCoin(us, them);
      && (r.Some? ==> CoinEntryOk(r.value, below))
      && (if r.Some? then Shown(r.value) else below) == Shown(them)
  {
  }

  lemma CoinsFlushed(s: State, i: int, p: map<OutPoint, CoinEntry>, c: map<OutPoint, CoinEntry>, o: OutPoint)
    requires IsLevel(s, i)
    requires CoinsFit(s, i, p)
    requires o in c ==> CoinEntryOk(c[o], if o in p then Shown(p[o]) else CoinAt(s, i, o))
    ensures o in c ==> !Misapplied(Lookup(p, o), c[o])
    ensures var m := Merged(p, c, MergeCoin);
      && (o in m ==> CoinEntryOk(m[o], CoinAt(s, i, o)))
      && (if o in m then Shown(m[o]) else CoinAt(s, i, o)) ==
           (if o in c then Shown(c[o]) else if o in p then Shown(p[o]) else CoinAt(s, i, o))
  {
    LookupMerged(p, c, MergeCoin, o);
    if o in c {
      MergeCoinOk(Lookup(p, o), c[o], CoinAt(s, i, o));
    }
  }

  lemma AnchorsFlushed(root: Tree -> Hash, s: State, i: int, p: map<Hash, AnchorEntry>, c: map<Hash, AnchorEntry>,
                       rt: Hash)
    requires IsLevel(s, i) && InjectiveRoot(root)
    requires AnchorsFit(root, s, i, p)
    requires rt in c ==>
      AnchorEntryOk(root, rt, c[rt], if rt in p then ShownAnchor(p[rt]) else AnchorAt(root, s, i, rt))
    ensures var m := Merged(p, c, MergeAnchor);
      && (rt in m ==> AnchorEntryOk(root, rt, m[rt], AnchorAt(root, s, i, rt)))
      && (if rt in m then ShownAnchor(m[rt]) else AnchorAt(root, s, i, rt)) ==
           (if rt in c then ShownAnchor(c[rt]) else if rt in p then ShownAnchor(p[rt]) else AnchorAt(root, s, i, rt))
  {
    LookupMerged(p, c, MergeAnchor, rt);
    if rt in p && rt in c {
      assert p[rt].tree == c[rt].tree;
    }
  }

  lemma NullifiersFlushed(s: State, i: int, p: map<Hash, NullifierEntry>, c: map<Hash, NullifierEntry>, nf: Hash)
    requires IsLevel(s, i)
    requires NullifiersFit(s, i, p)
    requires nf in c && !c[nf].dirty ==> c[nf].entered == if nf in p then p[nf].entered else NullifierAt(s, i, nf)
    ensures var m := Merged(p, c, MergeNullifier);
      && (nf in m && !m[nf].dirty ==> m[nf].entered == NullifierAt(s, i, nf))
      && (if nf in m then m[nf].entered else NullifierAt(s, i, nf)) ==
           (if nf in c then c[nf].entered else if nf in p then p[nf].entered else NullifierAt(s, i, nf))
  {
    LookupMerged(p, c, MergeNullifier, nf);
  }

  /** The merged parent fits where the parent sat and looks like the child did. */
  lemma AbsorbedLooksLikeChild(root: Tree -> Hash, s: State, k: int)
    requires InjectiveRoot(root) && 0 <= k && k + 1 < |s.caches|
    requires Fits(root, s, k, s.caches[k]) && Fits(root, s, k + 1, s.caches[k + 1])
    ensures Fits(root, s, k, Absorbed(s.caches[k], s.caches[k + 1]))
    ensures Through(root, s, k, Absorbed(s.caches[k], s.caches[k + 1]), s, k + 2)
    ensures forall o :: o in s.caches[k + 1].coins ==>
      !Misapplied(Lookup(s.caches[k].coins, o), s.caches[k + 1].coins[o])
  {
    hide Merged, MergeCoin, MergeAnchor, MergeNullifier, CoinEntryOk, AnchorEntryOk, Misapplied;
    var p, c, i, j := s.caches[k], s.caches[k + 1], k + 1, k + 2;
    var m := Absorbed(p, c);
    forall o ensures
      && (o in m.coins ==> CoinEntryOk(m.coins[o], CoinAt(s, k, o)))
      && (if o in m.coins then Shown(m.coins[o]) else CoinAt(s, k, o)) == CoinAt(s, j, o)
      && (o in c.coins ==> !Misapplied(Lookup(p.coins, o), c.coins[o]))
    {
      assert CoinAt(s, i, o) == if o in p.coins then Shown(p.coins[o]) else CoinAt(s, k, o);
      CoinsFlushed(s, k, p.coins, c.coins, o);
    }
    forall rt ensures
      && (rt in m.anchors ==> AnchorEntryOk(root, rt, m.anchors[rt], AnchorAt(root, s, k, rt)))
      && (if rt in m.anchors then ShownAnchor(m.anchors[rt]) else AnchorAt(root, s, k, rt)) == AnchorAt(root, s, j, rt)
    {
      assert AnchorAt(root, s, i, rt) ==
        if rt in p.anchors then ShownAnchor(p.anchors[rt]) else AnchorAt(root, s, k, rt);
      AnchorsFlushed(root, s, k, p.anchors, c.anchors, rt);
    }
    forall nf ensures
      && (nf in m.nullifiers && !m.nullifiers[nf].dirty ==> m.nullifiers[nf].entered == NullifierAt(s, k, nf))
      && (if nf in m.nullifiers then m.nullifiers[nf].entered else NullifierAt(s, k, nf)) == NullifierAt(s, j, nf)
    {
      assert NullifierAt(s, i, nf) == if nf in p.nullifiers then p.nullifiers[nf].entered else NullifierAt(s, k, nf);
      NullifiersFlushed(s, k, p.nullifiers, c.nullifiers, nf);
    }
  }

  /** The database cannot forget the empty tree. */
  predicate KeepsEmptyTree(root: Tree -> Hash, c: Cache) {
    root([]) in c.anchors ==> c.anchors[root([])].entered
  }

  /** The database after a flush looks like the bottom cache did, except for a removed empty tree. */
  lemma StoredLooksLikeChild(root: Tree -> Hash, s: State, t: State)
    requires InjectiveRoot(root) && s.caches != [] && DatabaseOk(root, s.db)
    requires Fits(root, s, 0, s.caches[0]) && t.db == Stored(s.db, s.caches[0])
    ensures DatabaseOk(root, t.db)
    ensures forall o :: CoinAt(t, 0, o) == CoinAt(s, 1, o)
    ensures forall nf :: NullifierAt(t, 0, nf) == NullifierAt(s, 1, nf)
    ensures forall rt :: rt != root([]) || KeepsEmptyTree(root, s.caches[0]) ==>
      AnchorAt(root, t, 0, rt) == AnchorAt(root, s, 1, rt)
    ensures !KeepsEmptyTree(root, s.caches[0]) ==> AnchorAt(root, t, 0, root([])) != AnchorAt(root, s, 1, root([]))
  {
    StoredCoins(root, s, t);
    StoredAnchors(root, s, t);
  }

  lemma StoredCoins(root: Tree -> Hash, s: State, t: State)
    requires s.caches != [] && DatabaseOk(root, s.db)
    requires Fits(root, s, 0, s.caches[0]) && t.db == Stored(s.db, s.caches[0])
    ensures forall o :: CoinAt(t, 0, o) == CoinAt(s, 1, o)
    ensures forall o :: o in t.db.coins ==> !t.db.coins[o].IsSpent()
    ensures forall nf :: NullifierAt(t, 0, nf) == NullifierAt(s, 1, nf)
  {
    var c := s.caches[0];
    forall o ensures CoinAt(t, 0, o) == CoinAt(s, 1, o) && (o in t.db.coins ==> !t.db.coins[o].IsSpent()) {
      LookupMerged(s.db.coins, c.coins, WriteCoin, o);
    }
  }

  lemma StoredAnchors(root: Tree -> Hash, s: State, t: State)
    requires InjectiveRoot(root) && s.caches != [] && DatabaseOk(root, s.db)
    requires Fits(root, s, 0, s.caches[0]) && t.db == Stored(s.db, s.caches[0])
    ensures forall rt :: rt in t.db.anchors ==> root(t.db.anchors[rt]) == rt
    ensures forall rt :: rt != root([]) || KeepsEmptyTree(root, s.caches[0]) ==>
      AnchorAt(root, t, 0, rt) == AnchorAt(root, s, 1, rt)
    ensures !KeepsEmptyTree(root, s.caches[0]) ==> AnchorAt(root, t, 0, root([])) != AnchorAt(root, s, 1, root([]))
  {
    var c := s.caches[0];
    forall rt ensures
      && (rt in t.db.anchors ==> root(t.db.anchors[rt]) == rt)
      && (rt != root([]) ==> AnchorAt(root, t, 0, rt) == AnchorAt(root, s, 1, rt))
    {
      LookupMerged(s.db.anchors, c.anchors, WriteAnchor, rt);
    }
  }

  /** Whether the parent's own tip survives the flush of cache `k` into cache `k - 1`. */
  predicate TipsSurvive(s: State, k: int)
    requires 1 <= k < |s.caches|
  {
    && (s.caches[k].hashBlock != 0 || s.caches[k - 1].hashBlock == 0
        || s.caches[k - 1].hashBlock == BestBlockAt(s, k - 1))
    && (s.caches[k].hashAnchor != 0 || s.caches[k - 1].hashAnchor == 0
        || s.caches[k - 1].hashAnchor == BestAnchorAt(s, k - 1))
  }

  lemma ClearedFits(root: Tree -> Hash, t: State, k: int)
    requires 0 <= k < |t.caches| && t.caches[k].coins == map[] && t.caches[k].anchors == map[]
    requires t.caches[k].nullifiers == map[]
    ensures Fits(root, t, k, t.caches[k]) && SameLevel(root, t, k, t, k + 1)
  {
    var i := k + 1;
    forall o ensures CoinAt(t, k, o) == CoinAt(t, i, o) {}
    forall nf ensures NullifierAt(t, k, nf) == NullifierAt(t, i, nf) {}
  }

  /** An empty cache fits everywhere. */
  lemma CoherentNewCache(root: Tree -> Hash, s: State)
    requires Coherent(root, s)
    ensures Coherent(root, s.(caches := s.caches + [Cache(map[], map[], map[], 0, 0)]))
  {
    hide Fits, SameLevel, SameTips, DatabaseOk;
    var n, t := |s.caches|, s.(caches := s.caches + [Cache(map[], map[], map[], 0, 0)]);
    ClearedFits(root, t, n);
    forall k | 0 <= k < |t.caches| ensures Fits(root, t, k, t.caches[k]) {
      if k < n {
        SameBelow(root, s, t, k);
        SameFits(root, s, t, k, s.caches[k]);
      }
    }
  }

  lemma SameLevelTransitive(root: Tree -> Hash, r: State, h: int, s: State, i: int, t: State, j: int)
    requires IsLevel(r, h) && IsLevel(s, i) && IsLevel(t, j)
    requires SameLevel(root, r, h, s, i) && SameLevel(root, s, i, t, j)
    ensures SameLevel(root, r, h, t, j) && SameLevel(root, t, j, r, h)
  {
    forall o ensures CoinAt(r, h, o) == CoinAt(t, j, o) {
      assert CoinAt(r, h, o) == CoinAt(s, i, o);
    }
    forall nf ensures NullifierAt(r, h, nf) == NullifierAt(t, j, nf) {
      assert NullifierAt(r, h, nf) == NullifierAt(s, i, nf);
    }
    forall rt ensures AnchorAt(root, r, h, rt) == AnchorAt(root, t, j, rt) {
      assert AnchorAt(root, r, h, rt) == AnchorAt(root, s, i, rt);
    }
  }

  /**
   * Flushing cache `k` into cache `k - 1`: the level below shows what the level
   * showed, no other level notices, the flags stay truthful, and the misapplied
   * FRESH error cannot occur.
   */
  lemma FlushIntoCache(root: Tree -> Hash, s: State, k: int)
    requires Coherent(root, s) && InjectiveRoot(root) && 1 <= k < |s.caches|
    ensures Coherent(root, Flushed(s, k))
    ensures SameLevel(root, s, k + 1, Flushed(s, k), k)
    ensures forall i :: 0 <= i <= |s.caches| && i != k ==> SameLevel(root, s, i, Flushed(s, k), i)
    ensures forall o :: o in s.caches[k].coins ==> !Misapplied(Lookup(s.caches[k - 1].coins, o), s.caches[k].coins[o])
  {
    hide Fits, Through, SameLevel, DatabaseOk, Absorbed;
    var t := Flushed(s, k);
    var m := Absorbed(s.caches[k - 1], s.caches[k]);
    AbsorbedLooksLikeChild(root, s, k - 1);
    ThroughWith(root, s, k - 1, m);
    var u := With(s, k - 1, m);
    ThroughUnique(root, s, k - 1, m, s, k + 1, u, k);
    SameBelow(root, u, t, k);
    SameLevelTransitive(root, s, k + 1, u, k, t, k);
    ClearedFits(root, t, k);
    SameLevelTransitive(root, s, k + 1, t, k, t, k + 1);
    SameBelow(root, s, t, k - 1);
    SameFits(root, s, t, k - 1, m);
    Unnoticed(root, s, t, k - 1, k + 1);
  }

  /** Levels of `s` and `t` agree except that `t` may show the empty tree where `s` shows none. */
  ghost predicate SameButEmptyTree(root: Tree -> Hash, s: State, i: int, t: State, j: int)
    requires IsLevel(s, i) && IsLevel(t, j)
  {
    && (forall o :: CoinAt(s, i, o) == CoinAt(t, j, o))
    && (forall nf :: NullifierAt(s, i, nf) == NullifierAt(t, j, nf))
    && (forall rt :: AnchorAt(root, t, j, rt) == AnchorAt(root, s, i, rt) ||
          (rt == root([]) && AnchorAt(root, s, i, rt).None?))
  }

  lemma {:induction false} SameButEmptyTreeAbove(root: Tree -> Hash, s: State, t: State, i: int)
    requires |s.caches| == |t.caches| && 1 <= i <= |s.caches|
    requires SameButEmptyTree(root, s, 1, t, 1) && forall k :: 1 <= k < |s.caches| ==> s.caches[k] == t.caches[k]
    ensures SameButEmptyTree(root, s, i, t, i)
  {
    if i > 1 {
      var k := i - 1;
      SameButEmptyTreeAbove(root, s, t, k);
      forall o ensures CoinAt(s, i, o) == CoinAt(t, i, o) {
        assert CoinAt(s, k, o) == CoinAt(t, k, o);
      }
      forall nf ensures NullifierAt(s, i, nf) == NullifierAt(t, i, nf) {
        assert NullifierAt(s, k, nf) == NullifierAt(t, k, nf);
      }
      forall rt ensures AnchorAt(root, t, i, rt) == AnchorAt(root, s, i, rt) ||
        (rt == root([]) && AnchorAt(root, s, i, rt).None?)
      {
        assert s.caches[k] == t.caches[k];
        assert AnchorAt(root, t, k, rt) == AnchorAt(root, s, k, rt) || AnchorAt(root, s, k, rt).None?;
      }
    }
  }

  lemma SameButEmptyTreeFits(root: Tree -> Hash, s: State, t: State, i: int, c: Cache)
    requires IsLevel(s, i) && IsLevel(t, i)
    requires Fits(root, s, i, c) && SameButEmptyTree(root, s, i, t, i)
    ensures Fits(root, t, i, c)
  {
  }

  /** Flushing the bottom cache keeps the flags truthful. */
  lemma FlushIntoDatabase(root: Tree -> Hash, s: State)
    requires Coherent(root, s) && InjectiveRoot(root) && s.caches != []
    ensures Coherent(root, Flushed(s, 0))
  {
    var t := Flushed(s, 0);
    assert Fits(root, s, 0, s.caches[0]);
    StoredLooksLikeChild(root, s, t);
    ClearedFits(root, t, 0);
    assert SameButEmptyTree(root, s, 1, t, 0);
    assert SameButEmptyTree(root, s, 1, t, 1);
    hide Fits, DatabaseOk, SameButEmptyTree, Stored;
    forall k | 0 <= k < |t.caches| ensures Fits(root, t, k, t.caches[k]) {
      if k > 0 {
        SameButEmptyTreeAbove(root, s, t, k);
        SameButEmptyTreeFits(root, s, t, k, s.caches[k]);
      }
    }
  }

  /**
   * The database then shows what the bottom cache showed, and no level above
   * notices, exactly when the cache had not removed the empty tree.
   */
  lemma FlushIntoDatabaseShows(root: Tree -> Hash, s: State)
    requires Coherent(root, s) && InjectiveRoot(root) && s.caches != []
    ensures SameLevel(root, s, 1, Flushed(s, 0), 0) <==> KeepsEmptyTree(root, s.caches[0])
    ensures KeepsEmptyTree(root, s.caches[0]) ==>
      forall i :: 1 <= i <= |s.caches| ==> SameLevel(root, s, i, Flushed(s, 0), i)
  {
    var t := Flushed(s, 0);
    assert Fits(root, s, 0, s.caches[0]);
    StoredLooksLikeChild(root, s, t);
    hide Fits, DatabaseOk, CoinAt, AnchorAt, NullifierAt, Stored;
    if KeepsEmptyTree(root, s.caches[0]) {
      ClearedFits(root, t, 0);
      SameLevelTransitive(root, s, 1, t, 0, t, 1);
      forall i | 1 <= i <= |s.caches| ensures SameLevel(root, s, i, t, i) {
        SameAbove(root, s, t, 1, i);
      }
    }
  }

  /** A flush hands the best block and anchor down exactly when `TipsSurvive`. */
  lemma FlushTips(s: State, k: int)
    requires 1 <= k < |s.caches|
    ensures SameTips(s, k + 1, Flushed(s, k), k) <==> TipsSurvive(s, k)
    ensures TipsSurvive(s, k) ==> forall i :: 0 <= i <= |s.caches| && i != k ==> SameTips(s, i, Flushed(s, k), i)
  {
    hide Merged;
    var t := Flushed(s, k);
    TipsBelow(s, t, k - 1);
    var p, c := s.caches[k - 1], s.caches[k];
    assert t.caches[k - 1].hashBlock == c.hashBlock && t.caches[k - 1].hashAnchor == c.hashAnchor;
    assert BestBlockAt(s, k) == if p.hashBlock != 0 then p.hashBlock else BestBlockAt(s, k - 1);
    assert BestAnchorAt(s, k) == if p.hashAnchor != 0 then p.hashAnchor else BestAnchorAt(s, k - 1);
    if TipsSurvive(s, k) {
      forall i | 0 <= i <= |s.caches| && i != k ensures SameTips(s, i, t, i) {
        if i < k {
          TipsBelow(s, t, i);
        } else {
          TipsAbove(s, t, k + 1, i);
        }
      }
    }
  }

  lemma FlushTipsIntoDatabase(s: State)
    requires s.caches != [] && s.caches[0].hashBlock != 0
    ensures SameTips(s, 1, Flushed(s, 0), 0)
    ensures forall i :: 1 <= i <= |s.caches| ==> SameTips(s, i, Flushed(s, 0), i)
  {
    hide Merged;
    var t, c := Flushed(s, 0), s.caches[0];
    assert BestBlockAt(s, 0) == s.db.bestBlock && BestAnchorAt(s, 0) == s.db.bestAnchor;
    assert BestBlockAt(t, 0) == c.hashBlock;
    assert BestAnchorAt(t, 0) == if c.hashAnchor != 0 then c.hashAnchor else s.db.bestAnchor;
    forall i | 1 <= i <= |s.caches| ensures SameTips(s, i, t, i) {
      TipsAbove(s, t, 1, i);
    }
  }
}
