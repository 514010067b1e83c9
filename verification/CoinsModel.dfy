/**
 * The value-level part of the layered coin cache: a database, a stack of
 * caches on top of it, what is visible at each level, and the condition on
 * DIRTY and FRESH flags under which the stack is as good as flat maps.
 */
module CoinsModel {
  import opened Common

  const OP_RETURN: int := 0x6a
  const MAX_SCRIPT_SIZE: int := 10000

  /** A 256-bit hash; zero is the null hash. */
  type Hash = nat

  datatype OutPoint = OutPoint(hash: Hash, n: nat)

  datatype TxOut = TxOut(value: int, script: seq<int>)

  const NullOut := TxOut(-1, [])

  datatype Coin = Coin(out: TxOut, coinbase: bool, height: nat) {
    predicate IsSpent() { out.value == -1 }

    predicate IsUnspendable() {
      (|out.script| > 0 && out.script[0] == OP_RETURN) || |out.script| > MAX_SCRIPT_SIZE
    }
  }

  const EmptyCoin := Coin(NullOut, false, 0)

  /** A commitment tree, as the list of its leaves. */
  type Tree = seq<Hash>

  datatype CoinEntry = CoinEntry(coin: Coin, dirty: bool, fresh_: bool)
  datatype AnchorEntry = AnchorEntry(entered: bool, tree: Tree, dirty: bool)
  datatype NullifierEntry = NullifierEntry(entered: bool, dirty: bool)

  datatype Cache = Cache(
    coins: map<OutPoint, CoinEntry>,
    anchors: map<Hash, AnchorEntry>,
    nullifiers: map<Hash, NullifierEntry>,
    hashBlock: Hash,
    hashAnchor: Hash)

  datatype Database = Database(
    coins: map<OutPoint, Coin>,
    anchors: map<Hash, Tree>,
    nullifiers: set<Hash>,
    bestBlock: Hash,
    bestAnchor: Hash)

  /** `caches[0]` sits on the database, `caches[i]` on `caches[i - 1]`. */
  datatype State = State(db: Database, caches: seq<Cache>)

  /** A level is the database (0) or the cache with index one less. */
  predicate IsLevel(s: State, i: int) { 0 <= i <= |s.caches| }

  function Shown(e: CoinEntry): Option<Coin> {
    if e.coin.IsSpent() then None else Some(e.coin)
  }

  function ShownAnchor(e: AnchorEntry): Option<Tree> {
    if e.entered then Some(e.tree) else None
  }

  /** The unspent coin visible at a level. */
  function CoinAt(s: State, i: int, o: OutPoint): Option<Coin>
    requires IsLevel(s, i)
  {
    if i == 0 then
      if o in s.db.coins then Some(s.db.coins[o]) else None
    else if o in s.caches[i - 1].coins then
      Shown(s.caches[i - 1].coins[o])
    else
      CoinAt(s, i - 1, o)
  }

  /** The tree visible at a level for a root; the database always has the empty tree. */
  function AnchorAt(root: Tree -> Hash, s: State, i: int, rt: Hash): Option<Tree>
    requires IsLevel(s, i)
  {
    if i == 0 then
      if rt == root([]) then Some([]) else if rt in s.db.anchors then Some(s.db.anchors[rt]) else None
    else if rt in s.caches[i - 1].anchors then
      ShownAnchor(s.caches[i - 1].anchors[rt])
    else
      AnchorAt(root, s, i - 1, rt)
  }

  /** Whether a nullifier counts as spent at a level. */
  function NullifierAt(s: State, i: int, nf: Hash): bool
    requires IsLevel(s, i)
  {
    if i == 0 then nf in s.db.nullifiers
    else if nf in s.caches[i - 1].nullifiers then s.caches[i - 1].nullifiers[nf].entered
    else NullifierAt(s, i - 1, nf)
  }

  function BestBlockAt(s: State, i: int): Hash
    requires IsLevel(s, i)
  {
    if i == 0 then s.db.bestBlock
    else if s.caches[i - 1].hashBlock != 0 then s.caches[i - 1].hashBlock
    else BestBlockAt(s, i - 1)
  }

  function BestAnchorAt(s: State, i: int): Hash
    requires IsLevel(s, i)
  {
    if i == 0 then s.db.bestAnchor
    else if s.caches[i - 1].hashAnchor != 0 then s.caches[i - 1].hashAnchor
    else BestAnchorAt(s, i - 1)
  }

  // A cache fits on a level if its flags tell the truth about that level.

  predicate CoinEntryOk(e: CoinEntry, below: Option<Coin>) {
    (e.fresh_ ==> below == None) && (!e.dirty ==> Shown(e) == below)
  }

  ghost predicate CoinsFit(s: State, i: int, coins: map<OutPoint, CoinEntry>)
    requires IsLevel(s, i)
  {
    forall o :: o in coins ==> CoinEntryOk(coins[o], CoinAt(s, i, o))
  }

  predicate AnchorEntryOk(root: Tree -> Hash, rt: Hash, e: AnchorEntry, below: Option<Tree>) {
    root(e.tree) == rt && (!e.dirty ==> e.entered && below == Some(e.tree))
  }

  ghost predicate AnchorsFit(root: Tree -> Hash, s: State, i: int, anchors: map<Hash, AnchorEntry>)
    requires IsLevel(s, i)
  {
    forall rt :: rt in anchors ==> AnchorEntryOk(root, rt, anchors[rt], AnchorAt(root, s, i, rt))
  }

  ghost predicate NullifiersFit(s: State, i: int, nullifiers: map<Hash, NullifierEntry>)
    requires IsLevel(s, i)
  {
    forall nf :: nf in nullifiers && !nullifiers[nf].dirty ==> nullifiers[nf].entered == NullifierAt(s, i, nf)
  }

  ghost predicate Fits(root: Tree -> Hash, s: State, i: int, c: Cache)
    requires IsLevel(s, i)
  {
    CoinsFit(s, i, c.coins) && AnchorsFit(root, s, i, c.anchors) && NullifiersFit(s, i, c.nullifiers)
  }

  ghost predicate DatabaseOk(root: Tree -> Hash, db: Database) {
    && (forall o :: o in db.coins ==> !db.coins[o].IsSpent())
    && (forall rt :: rt in db.anchors ==> root(db.anchors[rt]) == rt)
  }

  ghost predicate Coherent(root: Tree -> Hash, s: State) {
    DatabaseOk(root, s.db) && forall k :: 0 <= k < |s.caches| ==> Fits(root, s, k, s.caches[k])
  }

  /** Coins, anchors and nullifiers look the same at level `i` of `s` and level `j` of `t`. */
  ghost predicate SameLevel(root: Tree -> Hash, s: State, i: int, t: State, j: int)
    requires IsLevel(s, i) && IsLevel(t, j)
  {
    && (forall o :: CoinAt(s, i, o) == CoinAt(t, j, o))
    && (forall rt :: AnchorAt(root, s, i, rt) == AnchorAt(root, t, j, rt))
    && (forall nf :: NullifierAt(s, i, nf) == NullifierAt(t, j, nf))
  }

  /** The same best block and best anchor. */
  predicate SameTips(s: State, i: int, t: State, j: int)
    requires IsLevel(s, i) && IsLevel(t, j)
  {
    BestBlockAt(s, i) == BestBlockAt(t, j) && BestAnchorAt(s, i) == BestAnchorAt(t, j)
  }

  ghost predicate SameViews(root: Tree -> Hash, s: State, t: State) {
    && |s.caches| == |t.caches|
    && (forall i :: 0 <= i <= |s.caches| ==> SameLevel(root, s, i, t, i))
    && (forall i :: 0 <= i <= |s.caches| ==> SameTips(s, i, t, i))
  }

  /** Equal caches on levels that look the same make the next levels look the same. */
  lemma SameStep(root: Tree -> Hash, s: State, t: State, k: int)
    requires 0 <= k < |s.caches| && k < |t.caches|
    requires SameLevel(root, s, k, t, k) && s.caches[k] == t.caches[k]
    ensures SameLevel(root, s, k + 1, t, k + 1)
  {
    var i := k + 1;
    forall o ensures CoinAt(s, i, o) == CoinAt(t, i, o) {
      assert CoinAt(s, k, o) == CoinAt(t, k, o);
    }
    forall rt ensures AnchorAt(root, s, i, rt) == AnchorAt(root, t, i, rt) {
      assert AnchorAt(root, s, k, rt) == AnchorAt(root, t, k, rt);
    }
    forall nf ensures NullifierAt(s, i, nf) == NullifierAt(t, i, nf) {
      assert NullifierAt(s, k, nf) == NullifierAt(t, k, nf);
    }
  }

  lemma {:induction false} SameBelow(root: Tree -> Hash, s: State, t: State, i: int)
    requires IsLevel(s, i) && IsLevel(t, i)
    requires s.db == t.db && forall k :: 0 <= k < i ==> s.caches[k] == t.caches[k]
    ensures SameLevel(root, s, i, t, i) && SameTips(s, i, t, i)
  {
    if i > 0 {
      SameBelow(root, s, t, i - 1);
      SameStep(root, s, t, i - 1);
    }
  }

  lemma {:induction false} SameAbove(root: Tree -> Hash, s: State, t: State, lo: int, i: int)
    requires |s.caches| == |t.caches| && 0 <= lo <= i <= |s.caches|
    requires SameLevel(root, s, lo, t, lo) && forall k :: lo <= k < |s.caches| ==> s.caches[k] == t.caches[k]
    ensures SameLevel(root, s, i, t, i)
  {
    if i > lo {
      SameAbove(root, s, t, lo, i - 1);
      SameStep(root, s, t, i - 1);
    }
  }

  lemma {:induction false} TipsBelow(s: State, t: State, i: int)
    requires IsLevel(s, i) && IsLevel(t, i)
    requires s.db == t.db && forall k :: 0 <= k < i ==> s.caches[k] == t.caches[k]
    ensures SameTips(s, i, t, i)
  {
    if i > 0 {
      TipsBelow(s, t, i - 1);
    }
  }

  lemma {:induction false} TipsAbove(s: State, t: State, lo: int, i: int)
    requires |s.caches| == |t.caches| && 0 <= lo <= i <= |s.caches|
    requires SameTips(s, lo, t, lo) && forall k :: lo <= k < |s.caches| ==> s.caches[k] == t.caches[k]
    ensures SameTips(s, i, t, i)
  {
    if i > lo {
      TipsAbove(s, t, lo, i - 1);
    }
  }

  lemma SameFits(root: Tree -> Hash, s: State, t: State, i: int, c: Cache)
    requires IsLevel(s, i) && IsLevel(t, i)
    requires Fits(root, s, i, c) && SameLevel(root, s, i, t, i)
    ensures Fits(root, t, i, c)
  {
  }

  /** A change confined to caches `lo..hi` (and the database, if `lo` is -1) that level `hi` does not notice. */
  lemma Unnoticed(root: Tree -> Hash, s: State, t: State, lo: int, hi: int)
    requires Coherent(root, s) && |s.caches| == |t.caches| && -1 <= lo <= hi <= |s.caches| && 0 <= hi
    requires DatabaseOk(root, t.db) && (lo >= 0 ==> t.db == s.db)
    requires forall k :: 0 <= k < |s.caches| && (k < lo || hi <= k) ==> s.caches[k] == t.caches[k]
    requires SameLevel(root, s, hi, t, hi)
    requires forall k :: 0 <= k < hi && lo <= k ==> Fits(root, t, k, t.caches[k])
    ensures Coherent(root, t)
    ensures forall i :: 0 <= i <= lo || hi <= i <= |s.caches| ==> SameLevel(root, s, i, t, i)
  {
    hide SameLevel, Fits, DatabaseOk;
    forall i | 0 <= i <= lo || hi <= i <= |s.caches| ensures SameLevel(root, s, i, t, i) {
      if hi <= i {
        SameAbove(root, s, t, hi, i);
      } else {
        SameBelow(root, s, t, i);
      }
    }
    forall k | 0 <= k < |s.caches| ensures Fits(root, t, k, t.caches[k]) {
      if k < lo || hi <= k {
        SameFits(root, s, t, k, s.caches[k]);
      }
    }
  }

  // Replacing one cache.

  function With(s: State, k: int, c: Cache): State
    requires 0 <= k < |s.caches|
  {
    s.(caches := s.caches[k := c])
  }

  /** Cache `c` on level `i` looks like level `j` of `t`. */
  ghost predicate Through(root: Tree -> Hash, s: State, i: int, c: Cache, t: State, j: int)
    requires IsLevel(s, i) && IsLevel(t, j)
  {
    && (forall o :: (if o in c.coins then Shown(c.coins[o]) else CoinAt(s, i, o)) == CoinAt(t, j, o))
    && (forall rt ::
          (if rt in c.anchors then ShownAnchor(c.anchors[rt]) else AnchorAt(root, s, i, rt)) ==
          AnchorAt(root, t, j, rt))
    && (forall nf ::
          (if nf in c.nullifiers then c.nullifiers[nf].entered else NullifierAt(s, i, nf)) == NullifierAt(t, j, nf))
  }

  lemma ThroughSelf(root: Tree -> Hash, s: State, k: int)
    requires 0 <= k < |s.caches|
    ensures Through(root, s, k, s.caches[k], s, k + 1)
  {
    var c, i := s.caches[k], k + 1;
    forall o ensures (if o in c.coins then Shown(c.coins[o]) else CoinAt(s, k, o)) == CoinAt(s, i, o) {}
    forall nf ensures
      (if nf in c.nullifiers then c.nullifiers[nf].entered else NullifierAt(s, k, nf)) == NullifierAt(s, i, nf) {}
  }

  /** The level above a replaced cache. */
  lemma ThroughWith(root: Tree -> Hash, s: State, k: int, c: Cache)
    requires 0 <= k < |s.caches|
    ensures Through(root, s, k, c, With(s, k, c), k + 1)
    ensures forall i :: 0 <= i <= k ==> SameLevel(root, s, i, With(s, k, c), i)
    ensures forall i :: 0 <= i <= k ==> SameTips(s, i, With(s, k, c), i)
  {
    hide SameLevel, Through;
    var t := With(s, k, c);
    forall i | 0 <= i <= k ensures SameLevel(root, s, i, t, i) && SameTips(s, i, t, i) {
      SameBelow(root, s, t, i);
    }
    ThroughSelf(root, t, k);
    ThroughSame(root, t, s, k, c, t, k + 1);
  }

  lemma ThroughSame(root: Tree -> Hash, s: State, s': State, i: int, c: Cache, t: State, j: int)
    requires IsLevel(s, i) && IsLevel(s', i) && IsLevel(t, j)
    requires Through(root, s, i, c, t, j) && SameLevel(root, s', i, s, i)
    ensures Through(root, s', i, c, t, j)
  {
  }

  lemma ThroughUnique(root: Tree -> Hash, s: State, i: int, c: Cache, t: State, j: int, t': State, j': int)
    requires IsLevel(s, i) && IsLevel(t, j) && IsLevel(t', j')
    requires Through(root, s, i, c, t, j) && Through(root, s, i, c, t', j')
    ensures SameLevel(root, t, j, t', j')
  {
    forall o ensures CoinAt(t, j, o) == CoinAt(t', j', o) {
      assert o in c.coins || o !in c.coins;
    }
  }

  /** A replacement that is not noticed above. */
  lemma HiddenEdit(root: Tree -> Hash, s: State, k: int, c: Cache)
    requires Coherent(root, s) && 0 <= k < |s.caches|
    requires Fits(root, s, k, c) && Through(root, s, k, c, s, k + 1)
    requires SameTips(s, k + 1, With(s, k, c), k + 1)
    ensures Coherent(root, With(s, k, c)) && SameViews(root, s, With(s, k, c))
  {
    hide SameLevel, Through, Fits, DatabaseOk;
    var t := With(s, k, c);
    ThroughWith(root, s, k, c);
    ThroughUnique(root, s, k, c, s, k + 1, t, k + 1);
    SameFits(root, s, t, k, c);
    Unnoticed(root, s, t, k, k + 1);
    forall i | k + 1 <= i <= |s.caches| ensures SameTips(s, i, t, i) {
      TipsAbove(s, t, k + 1, i);
    }
  }

  /** A replacement of the topmost cache. */
  lemma TopEdit(root: Tree -> Hash, s: State, c: Cache)
    requires Coherent(root, s) && s.caches != []
    requires Fits(root, s, |s.caches| - 1, c)
    ensures var k := |s.caches| - 1;
      && Coherent(root, With(s, k, c))
      && Through(root, s, k, c, With(s, k, c), k + 1)
      && (forall i :: 0 <= i <= k ==> SameLevel(root, s, i, With(s, k, c), i))
      && (forall i :: 0 <= i <= k ==> SameTips(s, i, With(s, k, c), i))
  {
    hide SameLevel, Through, Fits, DatabaseOk, SameTips;
    var k := |s.caches| - 1;
    var t := With(s, k, c);
    ThroughWith(root, s, k, c);
    forall j | 0 <= j < |t.caches| ensures Fits(root, t, j, t.caches[j]) {
      SameFits(root, s, t, j, t.caches[j]);
    }
  }

  lemma SameViewsTransitive(root: Tree -> Hash, r: State, s: State, t: State)
    requires SameViews(root, r, s) && SameViews(root, s, t)
    ensures SameViews(root, r, t)
  {
    forall i | 0 <= i <= |r.caches| ensures SameLevel(root, r, i, t, i) && SameTips(r, i, t, i) {
      assert SameLevel(root, r, i, s, i) && SameLevel(root, s, i, t, i);
      assert SameTips(r, i, s, i) && SameTips(s, i, t, i);
      forall o ensures CoinAt(r, i, o) == CoinAt(t, i, o) {
        assert CoinAt(r, i, o) == CoinAt(s, i, o);
      }
      forall nf ensures NullifierAt(r, i, nf) == NullifierAt(t, i, nf) {
        assert NullifierAt(r, i, nf) == NullifierAt(s, i, nf);
      }
      forall rt ensures AnchorAt(root, r, i, rt) == AnchorAt(root, t, i, rt) {
        assert AnchorAt(root, r, i, rt) == AnchorAt(root, s, i, rt);
      }
    }
  }

  lemma SameViewsReflexive(root: Tree -> Hash, s: State)
    ensures SameViews(root, s, s)
  {
  }

  // Edits that only fill or empty a cache.

  /** A coin read from below is cached. */
  lemma CacheCoin(root: Tree -> Hash, s: State, k: int, o: OutPoint, e: CoinEntry)
    requires Coherent(root, s) && 0 <= k < |s.caches|
    requires o !in s.caches[k].coins && !e.dirty && CoinEntryOk(e, CoinAt(s, k, o))
    ensures var t := With(s, k, s.caches[k].(coins := s.caches[k].coins[o := e]));
      Coherent(root, t) && SameViews(root, s, t)
  {
    var was := s.caches[k];
    var c := was.(coins := was.coins[o := e]);
    assert Fits(root, s, k, was);
    assert Fits(root, s, k, c);
    ThroughSelf(root, s, k);
    assert Through(root, s, k, c, s, k + 1);
    hide Fits, Through, DatabaseOk, SameViews;
    TipsKept(s, k, c);
    HiddenEdit(root, s, k, c);
  }

  lemma TipsKept(s: State, k: int, c: Cache)
    requires 0 <= k < |s.caches|
    requires c.hashBlock == s.caches[k].hashBlock && c.hashAnchor == s.caches[k].hashAnchor
    ensures SameTips(s, k + 1, With(s, k, c), k + 1)
  {
    TipsBelow(s, With(s, k, c), k);
  }

  /** A clean entry is dropped from a cache. */
  lemma DropCoin(root: Tree -> Hash, s: State, k: int, o: OutPoint)
    requires Coherent(root, s) && 0 <= k < |s.caches|
    requires o in s.caches[k].coins && !s.caches[k].coins[o].dirty
    ensures var t := With(s, k, s.caches[k].(coins := s.caches[k].coins - {o}));
      Coherent(root, t) && SameViews(root, s, t)
  {
    var was := s.caches[k];
    var c := was.(coins := was.coins - {o});
    assert Fits(root, s, k, was);
    assert Fits(root, s, k, c);
    ThroughSelf(root, s, k);
    assert Through(root, s, k, c, s, k + 1);
    hide Fits, Through, DatabaseOk, SameViews;
    TipsKept(s, k, c);
    HiddenEdit(root, s, k, c);
  }

  lemma CacheAnchor(root: Tree -> Hash, s: State, k: int, rt: Hash, tree: Tree)
    requires Coherent(root, s) && 0 <= k < |s.caches|
    requires rt !in s.caches[k].anchors && AnchorAt(root, s, k, rt) == Some(tree) && root(tree) == rt
    ensures var t := With(s, k, s.caches[k].(anchors := s.caches[k].anchors[rt := AnchorEntry(true, tree, false)]));
      Coherent(root, t) && SameViews(root, s, t)
  {
    var was := s.caches[k];
    var c := was.(anchors := was.anchors[rt := AnchorEntry(true, tree, false)]);
    assert Fits(root, s, k, was);
    assert Fits(root, s, k, c);
    ThroughSelf(root, s, k);
    assert Through(root, s, k, c, s, k + 1);
    hide Fits, Through, DatabaseOk, SameViews;
    TipsKept(s, k, c);
    HiddenEdit(root, s, k, c);
  }

  lemma CacheNullifier(root: Tree -> Hash, s: State, k: int, nf: Hash)
    requires Coherent(root, s) && 0 <= k < |s.caches| && nf !in s.caches[k].nullifiers
    ensures var e := NullifierEntry(NullifierAt(s, k, nf), false);
      var t := With(s, k, s.caches[k].(nullifiers := s.caches[k].nullifiers[nf := e]));
      Coherent(root, t) && SameViews(root, s, t)
  {
    var was := s.caches[k];
    var c := was.(nullifiers := was.nullifiers[nf := NullifierEntry(NullifierAt(s, k, nf), false)]);
    assert Fits(root, s, k, was);
    assert Fits(root, s, k, c);
    ThroughSelf(root, s, k);
    assert Through(root, s, k, c, s, k + 1);
    hide Fits, Through, DatabaseOk, SameViews;
    TipsKept(s, k, c);
    HiddenEdit(root, s, k, c);
  }

  /** A best hash read from below is cached. */
  lemma CacheTips(root: Tree -> Hash, s: State, k: int, c: Cache)
    requires Coherent(root, s) && 0 <= k < |s.caches|
    requires c == s.caches[k].(hashBlock := c.hashBlock, hashAnchor := c.hashAnchor)
    requires c.hashBlock == s.caches[k].hashBlock || c.hashBlock == BestBlockAt(s, k + 1)
    requires c.hashAnchor == s.caches[k].hashAnchor || c.hashAnchor == BestAnchorAt(s, k + 1)
    ensures Coherent(root, With(s, k, c)) && SameViews(root, s, With(s, k, c))
  {
    assert Fits(root, s, k, s.caches[k]);
    ThroughSelf(root, s, k);
    TipsBelow(s, With(s, k, c), k);
    hide Through, DatabaseOk, SameViews;
    HiddenEdit(root, s, k, c);
  }

  lemma ViewsAgree(root: Tree -> Hash, s: State, t: State, i: int, o: OutPoint)
    requires SameViews(root, s, t) && IsLevel(s, i)
    ensures IsLevel(t, i) && CoinAt(s, i, o) == CoinAt(t, i, o)
  {
    assert SameLevel(root, s, i, t, i);
  }

  lemma {:induction false} VisibleCoinsAreUnspent(root: Tree -> Hash, s: State, i: int, o: OutPoint)
    requires Coherent(root, s) && IsLevel(s, i)
    ensures CoinAt(s, i, o).Some? ==> !CoinAt(s, i, o).value.IsSpent()
  {
    if i > 0 {
      VisibleCoinsAreUnspent(root, s, i - 1, o);
    }
  }

  // Edits of the topmost cache that change what it shows.

  function Top(s: State): Cache
    requires s.caches != []
  {
    s.caches[|s.caches| - 1]
  }

  function WithTop(s: State, c: Cache): State
    requires s.caches != []
  {
    With(s, |s.caches| - 1, c)
  }

  /** The levels under the topmost cache are as before. */
  ghost predicate SameUnderTop(root: Tree -> Hash, s: State, t: State) {
    && |s.caches| == |t.caches|
    && (forall i :: 0 <= i < |s.caches| ==> SameLevel(root, s, i, t, i))
    && (forall i :: 0 <= i < |s.caches| ==> SameTips(s, i, t, i))
  }

  /** At the top, the coin at `o` is now `v`; nothing else changed. */
  ghost predicate CoinPut(root: Tree -> Hash, s: State, t: State, o: OutPoint, v: Option<Coin>) {
    && SameUnderTop(root, s, t)
    && var n := |s.caches|;
    && SameTips(s, n, t, n)
    && (forall p :: CoinAt(t, n, p) == if p == o then v else CoinAt(s, n, p))
    && (forall rt :: AnchorAt(root, t, n, rt) == AnchorAt(root, s, n, rt))
    && (forall nf :: NullifierAt(t, n, nf) == NullifierAt(s, n, nf))
  }

  ghost predicate NullifierPut(root: Tree -> Hash, s: State, t: State, nullifier: Hash, spent: bool) {
    && SameUnderTop(root, s, t)
    && var n := |s.caches|;
    && SameTips(s, n, t, n)
    && (forall o :: CoinAt(t, n, o) == CoinAt(s, n, o))
    && (forall rt :: AnchorAt(root, t, n, rt) == AnchorAt(root, s, n, rt))
    && (forall nf :: NullifierAt(t, n, nf) == if nf == nullifier then spent else NullifierAt(s, n, nf))
  }

  /** The anchor at `at` is now `v` and the best anchor is `best`. */
  ghost predicate AnchorPut(root: Tree -> Hash, s: State, t: State, at: Hash, v: Option<Tree>, best: Hash) {
    && SameUnderTop(root, s, t)
    && var n := |s.caches|;
    && BestBlockAt(t, n) == BestBlockAt(s, n) && BestAnchorAt(t, n) == best
    && (forall o :: CoinAt(t, n, o) == CoinAt(s, n, o))
    && (forall rt :: AnchorAt(root, t, n, rt) == if rt == at then v else AnchorAt(root, s, n, rt))
    && (forall nf :: NullifierAt(t, n, nf) == NullifierAt(s, n, nf))
  }

  lemma PutCoinEntry(root: Tree -> Hash, s: State, o: OutPoint, e: CoinEntry)
    requires Coherent(root, s) && s.caches != []
    requires CoinEntryOk(e, CoinAt(s, |s.caches| - 1, o))
    ensures var t := WithTop(s, Top(s).(coins := Top(s).coins[o := e]));
      Coherent(root, t) && CoinPut(root, s, t, o, Shown(e))
  {
    var k := |s.caches| - 1;
    var c := s.caches[k].(coins := s.caches[k].coins[o := e]);
    assert Fits(root, s, k, s.caches[k]);
    ThroughSelf(root, s, k);
    TopEdit(root, s, c);
    TipsKept(s, k, c);
  }

  lemma DropFreshCoin(root: Tree -> Hash, s: State, o: OutPoint)
    requires Coherent(root, s) && s.caches != []
    requires o in Top(s).coins && Top(s).coins[o].fresh_
    ensures var t := WithTop(s, Top(s).(coins := Top(s).coins - {o}));
      Coherent(root, t) && CoinPut(root, s, t, o, None)
  {
    var k := |s.caches| - 1;
    var c := s.caches[k].(coins := s.caches[k].coins - {o});
    assert Fits(root, s, k, s.caches[k]);
    ThroughSelf(root, s, k);
    TopEdit(root, s, c);
    TipsKept(s, k, c);
  }

  lemma PutNullifierEntry(root: Tree -> Hash, s: State, nf: Hash, spent: bool)
    requires Coherent(root, s) && s.caches != []
    ensures var t := WithTop(s, Top(s).(nullifiers := Top(s).nullifiers[nf := NullifierEntry(spent, true)]));
      Coherent(root, t) && NullifierPut(root, s, t, nf, spent)
  {
    var k := |s.caches| - 1;
    var c := s.caches[k].(nullifiers := s.caches[k].nullifiers[nf := NullifierEntry(spent, true)]);
    assert Fits(root, s, k, s.caches[k]);
    ThroughSelf(root, s, k);
    TopEdit(root, s, c);
    TipsKept(s, k, c);
  }

  lemma PutAnchorEntry(root: Tree -> Hash, s: State, e: AnchorEntry, hash: Hash)
    requires Coherent(root, s) && s.caches != [] && e.dirty
    ensures var c := Top(s).(anchors := Top(s).anchors[root(e.tree) := e], hashAnchor := hash);
      var best := if hash != 0 then hash else BestAnchorAt(s, |s.caches| - 1);
      Coherent(root, WithTop(s, c)) && AnchorPut(root, s, WithTop(s, c), root(e.tree), ShownAnchor(e), best)
  {
    var k := |s.caches| - 1;
    var c := s.caches[k].(anchors := s.caches[k].anchors[root(e.tree) := e], hashAnchor := hash);
    assert Fits(root, s, k, s.caches[k]);
    ThroughSelf(root, s, k);
    TopEdit(root, s, c);
    TipsBelow(s, WithTop(s, c), k);
  }

  /** Only the best block of the topmost cache is set. */
  lemma PutBestBlock(root: Tree -> Hash, s: State, hash: Hash)
    requires Coherent(root, s) && s.caches != []
    ensures var t, n := WithTop(s, Top(s).(hashBlock := hash)), |s.caches|;
      && Coherent(root, t) && SameUnderTop(root, s, t) && SameLevel(root, s, n, t, n)
      && BestAnchorAt(t, n) == BestAnchorAt(s, n)
      && BestBlockAt(t, n) == if hash != 0 then hash else BestBlockAt(s, n - 1)
  {
    var k := |s.caches| - 1;
    var c := s.caches[k].(hashBlock := hash);
    assert Fits(root, s, k, c) by { assert Fits(root, s, k, s.caches[k]); }
    hide Coherent, SameLevel, Fits;
    ThroughSelf(root, s, k);
    ThroughSameMaps(root, s, k, s.caches[k], c);
    hide Through;
    TopEdit(root, s, c);
    TipsBelow(s, WithTop(s, c), k);
    ThroughUnique(root, s, k, c, s, k + 1, WithTop(s, c), k + 1);
  }

  lemma ThroughSameMaps(root: Tree -> Hash, s: State, k: int, c: Cache, d: Cache)
    requires 0 <= k < |s.caches| && Through(root, s, k, c, s, k + 1)
    requires d.coins == c.coins && d.anchors == c.anchors && d.nullifiers == c.nullifiers
    ensures Through(root, s, k, d, s, k + 1)
  {
    hide CoinAt, AnchorAt, NullifierAt;
  }

  lemma SameUnder(root: Tree -> Hash, r: State, s: State, t: State)
    requires SameViews(root, r, s) && SameUnderTop(root, s, t)
    ensures SameUnderTop(root, r, t)
  {
    forall i | 0 <= i < |r.caches| ensures SameLevel(root, r, i, t, i) && SameTips(r, i, t, i) {
      assert SameLevel(root, r, i, s, i) && SameLevel(root, s, i, t, i);
      assert SameTips(r, i, s, i) && SameTips(s, i, t, i);
      forall o ensures CoinAt(r, i, o) == CoinAt(t, i, o) {
        assert CoinAt(r, i, o) == CoinAt(s, i, o);
      }
      forall nf ensures NullifierAt(r, i, nf) == NullifierAt(t, i, nf) {
        assert NullifierAt(r, i, nf) == NullifierAt(s, i, nf);
      }
      forall rt ensures AnchorAt(root, r, i, rt) == AnchorAt(root, t, i, rt) {
        assert AnchorAt(root, r, i, rt) == AnchorAt(root, s, i, rt);
      }
    }
  }

  lemma CoinPutAfterRead(root: Tree -> Hash, r: State, s: State, t: State, o: OutPoint, v: Option<Coin>)
    requires SameViews(root, r, s) && CoinPut(root, s, t, o, v)
    ensures CoinPut(root, r, t, o, v)
  {
    SameUnder(root, r, s, t);
    var n := |r.caches|;
    assert SameLevel(root, r, n, s, n) && SameTips(r, n, s, n);
  }

  lemma AnchorPutAfterRead(root: Tree -> Hash, r: State, s: State, t: State, at: Hash, v: Option<Tree>, best: Hash)
    requires SameViews(root, r, s) && AnchorPut(root, s, t, at, v, best)
    ensures AnchorPut(root, r, t, at, v, best)
  {
    SameUnder(root, r, s, t);
    var n := |r.caches|;
    assert SameLevel(root, r, n, s, n) && SameTips(r, n, s, n);
  }

  lemma AnchorsAgree(root: Tree -> Hash, s: State, t: State, i: int, rt: Hash)
    requires SameViews(root, s, t) && IsLevel(s, i)
    ensures IsLevel(t, i) && AnchorAt(root, s, i, rt) == AnchorAt(root, t, i, rt)
  {
    assert SameLevel(root, s, i, t, i);
  }

  lemma NullifiersAgree(root: Tree -> Hash, s: State, t: State, i: int, nf: Hash)
    requires SameViews(root, s, t) && IsLevel(s, i)
    ensures IsLevel(t, i) && NullifierAt(s, i, nf) == NullifierAt(t, i, nf)
  {
    assert SameLevel(root, s, i, t, i);
  }

  lemma TipsAgree(root: Tree -> Hash, s: State, t: State, i: int)
    requires SameViews(root, s, t) && IsLevel(s, i)
    ensures IsLevel(t, i) && SameTips(s, i, t, i)
  {
  }

  lemma {:induction false} VisibleTreesHaveTheirRoot(root: Tree -> Hash, s: State, i: int, rt: Hash)
    requires Coherent(root, s) && IsLevel(s, i)
    ensures AnchorAt(root, s, i, rt).Some? ==> root(AnchorAt(root, s, i, rt).value) == rt
  {
    if i > 0 {
      VisibleTreesHaveTheirRoot(root, s, i - 1, rt);
      assert Fits(root, s, i - 1, s.caches[i - 1]);
    }
  }

  lemma TopEntryOk(root: Tree -> Hash, s: State, o: OutPoint)
    requires Coherent(root, s) && s.caches != []
    ensures o in Top(s).coins ==> CoinEntryOk(Top(s).coins[o], CoinAt(s, |s.caches| - 1, o))
  {
    assert Fits(root, s, |s.caches| - 1, Top(s));
  }

  lemma NothingPut(root: Tree -> Hash, s: State, o: OutPoint)
    ensures CoinPut(root, s, s, o, CoinAt(s, |s.caches|, o))
  {
  }
}
