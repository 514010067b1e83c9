/**
 * The layered coin cache: a stack of caches over the coin database, where even
 * reads fill caches on every level they pass.
 */
module Coins {
  import opened Common
  import opened CoinsModel
  import opened CoinsFlush

  datatype JoinSplit = JoinSplit(anchor: Hash, nullifiers: seq<Hash>, commitments: seq<Hash>)

  /**
   * Tree `k` has the anchor of joinsplit `k` as its root: it is the visible tree of that anchor, or an
   * earlier tree of the list followed by the commitments of its joinsplit.
   */
  ghost predicate Founded(root: Tree -> Hash, anchor: Hash -> Option<Tree>, joinSplits: seq<JoinSplit>,
                          trees: seq<Tree>, k: nat)
    requires k < |trees| <= |joinSplits|
  {
    || anchor(joinSplits[k].anchor) == Some(trees[k])
    || exists j :: 0 <= j < k && Follows(root, joinSplits, trees, k, j)
  }

  ghost predicate Follows(root: Tree -> Hash, joinSplits: seq<JoinSplit>, trees: seq<Tree>, k: nat, j: nat)
    requires j < k < |trees| <= |joinSplits|
  {
    trees[k] == trees[j] + joinSplits[j].commitments && root(trees[k]) == joinSplits[k].anchor
  }

  ghost predicate Chained(root: Tree -> Hash, anchor: Hash -> Option<Tree>, joinSplits: seq<JoinSplit>,
                          trees: seq<Tree>)
  {
    |trees| <= |joinSplits| && forall k :: 0 <= k < |trees| ==> Founded(root, anchor, joinSplits, trees, k)
  }

  ghost predicate Unspent(nullifier: Hash -> bool, joinSplits: seq<JoinSplit>) {
    forall k, nf :: 0 <= k < |joinSplits| && nf in joinSplits[k].nullifiers ==> !nullifier(nf)
  }

  /** No nullifier of the joinsplits is spent, and there is a tree for the anchor of each of them. */
  ghost predicate JoinSplitsOk(root: Tree -> Hash, anchor: Hash -> Option<Tree>, nullifier: Hash -> bool,
                               joinSplits: seq<JoinSplit>)
  {
    Unspent(nullifier, joinSplits) &&
    exists trees :: |trees| == |joinSplits| && Chained(root, anchor, joinSplits, trees)
  }

  /** The trees after each joinsplit so far, by their roots. */
  ghost predicate Recorded(root: Tree -> Hash, joinSplits: seq<JoinSplit>, trees: seq<Tree>,
                           intermediates: map<Hash, Tree>)
    requires |trees| <= |joinSplits|
  {
    && (forall j :: 0 <= j < |trees| ==> root(trees[j] + joinSplits[j].commitments) in intermediates)
    && (forall h :: h in intermediates ==>
          && root(intermediates[h]) == h
          && exists j :: 0 <= j < |trees| && intermediates[h] == trees[j] + joinSplits[j].commitments)
  }

  ghost predicate VisibleRoots(root: Tree -> Hash, anchor: Hash -> Option<Tree>) {
    forall rt :: anchor(rt).Some? ==> root(anchor(rt).value) == rt
  }

  /** The trees are determined by their roots, so that without a tree for the next anchor there is no list at all. */
  lemma NoTreeNext(root: Tree -> Hash, anchor: Hash -> Option<Tree>, joinSplits: seq<JoinSplit>, trees: seq<Tree>,
                   intermediates: map<Hash, Tree>, all: seq<Tree>)
    requires InjectiveRoot(root) && VisibleRoots(root, anchor) && Chained(root, anchor, joinSplits, trees)
    requires |trees| < |joinSplits| && Recorded(root, joinSplits, trees, intermediates)
    requires anchor(joinSplits[|trees|].anchor).None? && joinSplits[|trees|].anchor !in intermediates
    ensures !(|all| == |joinSplits| && Chained(root, anchor, joinSplits, all))
  {
    var k := |trees|;
    if |all| == |joinSplits| && forall j :: 0 <= j < k ==> Founded(root, anchor, joinSplits, all, j) {
      forall j | 0 <= j < k ensures !Follows(root, joinSplits, all, k, j) {
        TreesAgree(root, anchor, joinSplits, trees, all, j);
      }
      assert !Founded(root, anchor, joinSplits, all, k);
    }
  }

  lemma TreesAgree(root: Tree -> Hash, anchor: Hash -> Option<Tree>, joinSplits: seq<JoinSplit>, trees: seq<Tree>,
                   all: seq<Tree>, j: nat)
    requires InjectiveRoot(root) && VisibleRoots(root, anchor) && j < |trees| <= |all| <= |joinSplits|
    requires Founded(root, anchor, joinSplits, trees, j) && Founded(root, anchor, joinSplits, all, j)
    ensures all[j] == trees[j]
  {
  }

  lemma NothingRecorded(root: Tree -> Hash, anchor: Hash -> Option<Tree>, joinSplits: seq<JoinSplit>)
    ensures Chained(root, anchor, joinSplits, []) && Recorded(root, joinSplits, [], map[])
  {
  }

  lemma FoundedNext(root: Tree -> Hash, anchor: Hash -> Option<Tree>, joinSplits: seq<JoinSplit>, trees: seq<Tree>,
                    intermediates: map<Hash, Tree>, tree: Tree)
    requires Chained(root, anchor, joinSplits, trees) && |trees| < |joinSplits|
    requires Recorded(root, joinSplits, trees, intermediates)
    requires var h := joinSplits[|trees|].anchor;
      if h in intermediates then tree == intermediates[h] else anchor(h) == Some(tree)
    ensures Chained(root, anchor, joinSplits, trees + [tree])
  {
    var more := trees + [tree];
    forall k | 0 <= k < |more| ensures Founded(root, anchor, joinSplits, more, k) {
      if k < |trees| {
        assert Founded(root, anchor, joinSplits, trees, k);
        if j :| 0 <= j < k && Follows(root, joinSplits, trees, k, j) {
          assert Follows(root, joinSplits, more, k, j);
        }
      } else if joinSplits[k].anchor in intermediates {
        var j :| 0 <= j < k && tree == trees[j] + joinSplits[j].commitments;
        assert Follows(root, joinSplits, more, k, j);
      }
    }
  }

  lemma RecordedNext(root: Tree -> Hash, joinSplits: seq<JoinSplit>, trees: seq<Tree>,
                     intermediates: map<Hash, Tree>, tree: Tree)
    requires |trees| < |joinSplits| && Recorded(root, joinSplits, trees, intermediates)
    ensures var after := tree + joinSplits[|trees|].commitments;
      Recorded(root, joinSplits, trees + [tree],
               if root(after) in intermediates then intermediates else intermediates[root(after) := after])
  {
    var k, more, after := |trees|, trees + [tree], tree + joinSplits[|trees|].commitments;
    var next := if root(after) in intermediates then intermediates else intermediates[root(after) := after];
    forall j | 0 <= j < |more| ensures root(more[j] + joinSplits[j].commitments) in next {
      assert j < k ==> more[j] == trees[j];
    }
    forall h | h in next
      ensures root(next[h]) == h && exists j :: 0 <= j < |more| && next[h] == more[j] + joinSplits[j].commitments
    {
      if h in intermediates {
        var j :| 0 <= j < k && intermediates[h] == trees[j] + joinSplits[j].commitments;
        assert next[h] == more[j] + joinSplits[j].commitments;
      } else {
        assert next[h] == more[k] + joinSplits[k].commitments;
      }
    }
  }

  /** Writes the child's coin entries into the parent's map; fails on a misapplied FRESH flag. */
  method BatchWriteCoins(parent: map<OutPoint, CoinEntry>, child: map<OutPoint, CoinEntry>)
    returns (ok: bool, result: map<OutPoint, CoinEntry>)
    ensures ok <==> forall o :: o in child ==> !Misapplied(Lookup(parent, o), child[o])
    ensures ok ==> result == Merged(parent, child, MergeCoin)
  {
    hide Merged;
    result := parent;
    var todo := child.Keys;
    NothingMerged(parent, child, MergeCoin);
    while todo != {}
      invariant todo <= child.Keys
      invariant forall o :: o in child && o !in todo ==> !Misapplied(Lookup(parent, o), child[o])
      invariant result == Merged(parent, child - todo, MergeCoin)
      decreases todo
    {
      var o := Pick(todo);
      var entry := child[o];
      MergeOne(parent, child, MergeCoin, todo, o);
      LookupMerged(parent, child - todo, MergeCoin, o);
      if entry.dirty {
        if o !in result {
          if !(entry.fresh_ && entry.coin.IsSpent()) {
            result := result[o := CoinEntry(entry.coin, true, entry.fresh_)];
          } else {
            assert result - {o} == result;
          }
        } else {
          if entry.fresh_ && !result[o].coin.IsSpent() {
            return false, result;
          }
          if result[o].fresh_ && entry.coin.IsSpent() {
            result := result - {o};
          } else {
            result := result[o := result[o].(coin := entry.coin, dirty := true)];
          }
        }
      } else {
        assert o in result ==> result[o := result[o]] == result;
        assert o !in result ==> result - {o} == result;
      }
      todo := todo - {o};
    }
    assert child - {} == child;
    return true, result;
  }

  method BatchWriteAnchors(parent: map<Hash, AnchorEntry>, child: map<Hash, AnchorEntry>)
    returns (result: map<Hash, AnchorEntry>)
    ensures result == Merged(parent, child, MergeAnchor)
  {
    hide Merged;
    result := parent;
    var todo := child.Keys;
    NothingMerged(parent, child, MergeAnchor);
    while todo != {}
      invariant todo <= child.Keys
      invariant result == Merged(parent, child - todo, MergeAnchor)
      decreases todo
    {
      var rt := Pick(todo);
      MergeOne(parent, child, MergeAnchor, todo, rt);
      if child[rt].dirty {
        if rt !in result {
          result := result[rt := AnchorEntry(child[rt].entered, child[rt].tree, true)];
        } else if result[rt].entered != child[rt].entered {
          result := result[rt := result[rt].(entered := child[rt].entered, dirty := true)];
        } else {
          assert result[rt := result[rt]] == result;
        }
      } else {
        assert rt in result ==> result[rt := result[rt]] == result;
        assert rt !in result ==> result - {rt} == result;
      }
      todo := todo - {rt};
    }
    assert child - {} == child;
  }

  method BatchWriteNullifiers(parent: map<Hash, NullifierEntry>, child: map<Hash, NullifierEntry>)
    returns (result: map<Hash, NullifierEntry>)
    ensures result == Merged(parent, child, MergeNullifier)
  {
    hide Merged;
    result := parent;
    var todo := child.Keys;
    NothingMerged(parent, child, MergeNullifier);
    while todo != {}
      invariant todo <= child.Keys
      invariant result == Merged(parent, child - todo, MergeNullifier)
      decreases todo
    {
      var nf := Pick(todo);
      MergeOne(parent, child, MergeNullifier, todo, nf);
      if child[nf].dirty {
        if nf !in result || result[nf].entered != child[nf].entered {
          result := result[nf := NullifierEntry(child[nf].entered, true)];
        } else {
          assert result[nf := result[nf]] == result;
        }
      } else {
        assert nf in result ==> result[nf := result[nf]] == result;
        assert nf !in result ==> result - {nf} == result;
      }
      todo := todo - {nf};
    }
    assert child - {} == child;
  }

  class Stack {
    const root: Tree -> Hash
    var db: Database
    var caches: seq<Cache>

    ghost function S(): State
      reads this
    {
      State(db, caches)
    }

    ghost predicate Valid()
      reads this
    {
      InjectiveRoot(root) && Coherent(root, S())
    }

    constructor (root: Tree -> Hash, db: Database)
      requires InjectiveRoot(root) && DatabaseOk(root, db)
      ensures Valid() && this.root == root && S() == State(db, [])
    {
      this.root := root;
      this.db := db;
      caches := [];
    }

    /** Puts an empty cache on top. */
    method NewCache()
      requires Valid()
      modifies this`caches
      ensures Valid() && caches == old(caches) + [Cache(map[], map[], map[], 0, 0)]
    {
      hide Coherent;
      CoherentNewCache(root, S());
      caches := caches + [Cache(map[], map[], map[], 0, 0)];
    }

    /** Makes cache `k` hold its coin for `o`, if there is one; no level shows anything else afterwards. */
    method FetchCoin(k: int, o: OutPoint) returns (found: bool)
      requires Valid() && 0 <= k < |caches|
      modifies this`caches
      ensures Valid() && |caches| == |old(caches)| && SameViews(root, old(S()), S())
      ensures forall j :: k < j < |caches| ==> caches[j] == old(caches)[j]
      ensures found <==> o in old(caches)[k].coins || CoinAt(old(S()), k, o).Some?
      ensures found <==> o in caches[k].coins
      ensures caches[k] == old(caches)[k].(coins := caches[k].coins)
      ensures o in old(caches)[k].coins ==> caches == old(caches)
      ensures found && o !in old(caches)[k].coins ==> !caches[k].coins[o].fresh_
      decreases k
    {
      hide Coherent, SameViews, CoinAt;
      if o in caches[k].coins {
        SameViewsReflexive(root, S());
        return true;
      }
      var coin := GetCoin(k, o);
      ghost var s := S();
      if coin.None? {
        return false;
      }
      ViewsAgree(root, old(S()), s, k, o);
      var entry := CoinEntry(coin.value, false, coin.value.IsSpent());
      VisibleCoinsAreUnspent(root, s, k, o);
      CacheCoin(root, s, k, o, entry);
      caches := caches[k := caches[k].(coins := caches[k].coins[o := entry])];
      assert S() == With(s, k, s.caches[k].(coins := s.caches[k].coins[o := entry]));
      SameViewsTransitive(root, old(S()), s, S());
      return true;
    }

    /** `GetCoin` at a level. */
    method GetCoin(i: int, o: OutPoint) returns (coin: Option<Coin>)
      requires Valid() && IsLevel(S(), i)
      modifies this`caches
      ensures Valid() && |caches| == |old(caches)| && SameViews(root, old(S()), S())
      ensures forall j :: i <= j < |caches| ==> caches[j] == old(caches)[j]
      ensures coin == CoinAt(old(S()), i, o)
      decreases i, 1
    {
      hide Coherent, SameViews;
      if i == 0 {
        SameViewsReflexive(root, S());
        return if o in db.coins then Some(db.coins[o]) else None;
      }
      var found := FetchCoin(i - 1, o);
      ViewsAgree(root, old(S()), S(), i, o);
      if found {
        return if caches[i - 1].coins[o].coin.IsSpent() then None else Some(caches[i - 1].coins[o].coin);
      }
      return None;
    }

    method GetAnchorAt(i: int, rt: Hash) returns (tree: Option<Tree>)
      requires Valid() && IsLevel(S(), i)
      modifies this`caches
      ensures Valid() && |caches| == |old(caches)| && SameViews(root, old(S()), S())
      ensures forall j :: i <= j < |caches| ==> caches[j] == old(caches)[j]
      ensures tree == AnchorAt(root, old(S()), i, rt)
      ensures i > 0 && tree.Some? ==>
        rt in caches[i - 1].anchors && caches[i - 1].anchors[rt].entered && caches[i - 1].anchors[rt].tree == tree.value
      decreases i
    {
      hide Coherent, SameViews;
      if i == 0 {
        SameViewsReflexive(root, S());
        return if rt == root([]) then Some([]) else if rt in db.anchors then Some(db.anchors[rt]) else None;
      }
      var k := i - 1;
      if rt in caches[k].anchors {
        SameViewsReflexive(root, S());
        var e := caches[k].anchors[rt];
        return if e.entered then Some(e.tree) else None;
      }
      tree := GetAnchorAt(k, rt);
      if tree.None? {
        return;
      }
      ghost var s := S();
      AnchorsAgree(root, old(S()), s, k, rt);
      VisibleTreesHaveTheirRoot(root, s, k, rt);
      CacheAnchor(root, s, k, rt, tree.value);
      caches := caches[k := caches[k].(anchors := caches[k].anchors[rt := AnchorEntry(true, tree.value, false)])];
      SameViewsTransitive(root, old(S()), s, S());
    }

    method GetNullifier(i: int, nf: Hash) returns (spent: bool)
      requires Valid() && IsLevel(S(), i)
      modifies this`caches
      ensures Valid() && |caches| == |old(caches)| && SameViews(root, old(S()), S())
      ensures forall j :: i <= j < |caches| ==> caches[j] == old(caches)[j]
      ensures spent == NullifierAt(old(S()), i, nf)
      decreases i
    {
      hide Coherent, SameViews;
      if i == 0 {
        SameViewsReflexive(root, S());
        return nf in db.nullifiers;
      }
      var k := i - 1;
      if nf in caches[k].nullifiers {
        SameViewsReflexive(root, S());
        return caches[k].nullifiers[nf].entered;
      }
      spent := GetNullifier(k, nf);
      ghost var s := S();
      NullifiersAgree(root, old(S()), s, k, nf);
      CacheNullifier(root, s, k, nf);
      caches := caches[k := caches[k].(nullifiers := caches[k].nullifiers[nf := NullifierEntry(spent, false)])];
      SameViewsTransitive(root, old(S()), s, S());
    }

    method GetBestBlock(i: int) returns (hash: Hash)
      requires Valid() && IsLevel(S(), i)
      modifies this`caches
      ensures Valid() && |caches| == |old(caches)| && SameViews(root, old(S()), S())
      ensures forall j :: i <= j < |caches| ==> caches[j] == old(caches)[j]
      ensures hash == BestBlockAt(old(S()), i)
      ensures i > 0 ==> caches[i - 1].hashBlock == hash
      ensures i > 0 ==> caches[i - 1] == old(caches)[i - 1].(hashBlock := hash)
      decreases i
    {
      hide Coherent, SameViews;
      if i == 0 {
        SameViewsReflexive(root, S());
        return db.bestBlock;
      }
      var k := i - 1;
      if caches[k].hashBlock == 0 {
        hash := GetBestBlock(k);
        ghost var s := S();
        TipsAgree(root, old(S()), s, k);
        CacheTips(root, s, k, caches[k].(hashBlock := hash));
        caches := caches[k := caches[k].(hashBlock := hash)];
        SameViewsTransitive(root, old(S()), s, S());
      } else {
        SameViewsReflexive(root, S());
      }
      return caches[k].hashBlock;
    }

    method GetBestAnchor(i: int) returns (hash: Hash)
      requires Valid() && IsLevel(S(), i)
      modifies this`caches
      ensures Valid() && |caches| == |old(caches)| && SameViews(root, old(S()), S())
      ensures forall j :: i <= j < |caches| ==> caches[j] == old(caches)[j]
      ensures hash == BestAnchorAt(old(S()), i)
      ensures i > 0 ==> caches[i - 1] == old(caches)[i - 1].(hashAnchor := hash)
      decreases i
    {
      hide Coherent, SameViews;
      if i == 0 {
        SameViewsReflexive(root, S());
        return db.bestAnchor;
      }
      var k := i - 1;
      if caches[k].hashAnchor == 0 {
        hash := GetBestAnchor(k);
        ghost var s := S();
        TipsAgree(root, old(S()), s, k);
        CacheTips(root, s, k, caches[k].(hashAnchor := hash));
        caches := caches[k := caches[k].(hashAnchor := hash)];
        SameViewsTransitive(root, old(S()), s, S());
      } else {
        SameViewsReflexive(root, S());
      }
      return caches[k].hashAnchor;
    }

    /** Forgets an entry that carries neither flag; any other entry stays, and nobody notices. */
    method Uncache(k: int, o: OutPoint)
      requires Valid() && 0 <= k < |caches|
      modifies this`caches
      ensures Valid() && |caches| == |old(caches)| && SameViews(root, old(S()), S())
      ensures caches == old(caches)[k := old(caches)[k].(coins := caches[k].coins)]
      ensures caches[k].coins.Keys == old(caches)[k].coins.Keys -
        (set x | x == o && x in old(caches)[k].coins
                 && !old(caches)[k].coins[x].dirty && !old(caches)[k].coins[x].fresh_)
      ensures forall x :: x in caches[k].coins ==> caches[k].coins[x] == old(caches)[k].coins[x]
    {
      hide Coherent, SameViews;
      SameViewsReflexive(root, S());
      if o in caches[k].coins && !caches[k].coins[o].dirty && !caches[k].coins[o].fresh_ {
        DropCoin(root, S(), k, o);
        caches := caches[k := caches[k].(coins := caches[k].coins - {o})];
      }
    }

    /** `AddCoin` on the topmost cache; `threw` reports the "replaces non-pruned entry" error. */
    method AddCoin(o: OutPoint, coin: Coin, possibleOverwrite: bool) returns (threw: bool)
      requires Valid() && caches != [] && !coin.IsSpent()
      requires possibleOverwrite || o in Top(S()).coins || CoinAt(S(), |caches| - 1, o).None?
      modifies this`caches
      ensures Valid() && |caches| == |old(caches)|
      ensures threw <==> !possibleOverwrite && !coin.IsUnspendable() && CoinAt(old(S()), |caches|, o).Some?
      ensures if threw || coin.IsUnspendable() then S() == old(S())
              else CoinPut(root, old(S()), S(), o, Some(coin))
      ensures !threw && !coin.IsUnspendable() ==>
        var was := Top(old(S())).coins;
        && o in Top(S()).coins && Top(S()).coins[o].dirty
        && (Top(S()).coins[o].fresh_ <==>
              (o in was && was[o].fresh_) || (!possibleOverwrite && !(o in was && was[o].dirty)))
    {
      hide Coherent, CoinPut;
      if coin.IsUnspendable() {
        return false;
      }
      var n := |caches|;
      var c := caches[n - 1];
      var was := if o in c.coins then c.coins[o] else CoinEntry(EmptyCoin, false, false);
      var isFresh := false;
      if !possibleOverwrite {
        if !was.coin.IsSpent() {
          return true;
        }
        isFresh := !was.dirty;
      }
      var e := CoinEntry(coin, true, was.fresh_ || isFresh);
      TopEntryOk(root, S(), o);
      PutCoinEntry(root, S(), o, e);
      caches := caches[n - 1 := c.(coins := c.coins[o := e])];
      return false;
    }

    /**
     * `SpendCoin` on the topmost cache. The answer is not whether a coin was
     * visible: a spent entry that is still cached is reported as spent again.
     */
    method SpendCoin(o: OutPoint) returns (ok: bool, moved: Coin)
      requires Valid() && caches != []
      modifies this`caches
      ensures Valid() && |caches| == |old(caches)|
      ensures ok <==> o in Top(old(S())).coins || CoinAt(old(S()), |caches|, o).Some?
      ensures match CoinAt(old(S()), |caches|, o) case Some(coin) => moved == coin case None => moved.IsSpent()
      ensures o in Top(S()).coins <==> ok && !(o in Top(old(S())).coins && Top(old(S())).coins[o].fresh_)
      ensures CoinPut(root, old(S()), S(), o, None)
    {
      hide Coherent, CoinPut, SameViews;
      var n := |caches|;
      ok := FetchCoin(n - 1, o);
      ghost var s := S();
      ViewsAgree(root, old(S()), s, n, o);
      if !ok {
        NothingPut(root, s, o);
        CoinPutAfterRead(root, old(S()), s, S(), o, None);
        return ok, EmptyCoin;
      }
      var c := caches[n - 1];
      moved := c.coins[o].coin;
      TopEntryOk(root, s, o);
      if c.coins[o].fresh_ {
        DropFreshCoin(root, s, o);
        caches := caches[n - 1 := c.(coins := c.coins - {o})];
      } else {
        var e := c.coins[o].(dirty := true, coin := EmptyCoin);
        PutCoinEntry(root, s, o, e);
        caches := caches[n - 1 := c.(coins := c.coins[o := e])];
      }
      CoinPutAfterRead(root, old(S()), s, S(), o, None);
    }

    method SetNullifier(nf: Hash, spent: bool)
      requires Valid() && caches != []
      modifies this`caches
      ensures Valid() && |caches| == |old(caches)| && NullifierPut(root, old(S()), S(), nf, spent)
    {
      hide Coherent, NullifierPut;
      var n := |caches|;
      PutNullifierEntry(root, S(), nf, spent);
      var nullifiers := caches[n - 1].nullifiers[nf := NullifierEntry(spent, true)];
      caches := caches[n - 1 := caches[n - 1].(nullifiers := nullifiers)];
    }

    method SetBestBlock(hash: Hash)
      requires Valid() && caches != []
      modifies this`caches
      ensures Valid() && |caches| == |old(caches)| && SameUnderTop(root, old(S()), S())
      ensures SameLevel(root, old(S()), |caches|, S(), |caches|)
      ensures BestAnchorAt(S(), |caches|) == BestAnchorAt(old(S()), |caches|)
      ensures BestBlockAt(S(), |caches|) == if hash != 0 then hash else BestBlockAt(old(S()), |caches| - 1)
    {
      hide Coherent, SameUnderTop, SameLevel;
      var n := |caches|;
      PutBestBlock(root, S(), hash);
      caches := caches[n - 1 := caches[n - 1].(hashBlock := hash)];
    }

    /** Makes `tree` the best anchor, unless its root already is. */
    method PushAnchor(tree: Tree)
      requires Valid() && caches != []
      modifies this`caches
      ensures Valid() && |caches| == |old(caches)|
      ensures var n, rt := |caches|, root(tree);
        if BestAnchorAt(old(S()), n) == rt then SameViews(root, old(S()), S())
        else AnchorPut(root, old(S()), S(), rt, Some(tree), if rt != 0 then rt else BestAnchorAt(old(S()), n - 1))
    {
      hide Coherent, SameViews, AnchorPut, BestAnchorAt;
      var n, rt := |caches|, root(tree);
      var current := GetBestAnchor(n);
      if current != rt {
        ghost var s := S();
        TipsAgree(root, old(S()), s, n - 1);
        var e := AnchorEntry(true, tree, true);
        PutAnchorEntry(root, s, e, rt);
        caches := caches[n - 1 := caches[n - 1].(anchors := caches[n - 1].anchors[rt := e], hashAnchor := rt)];
        AnchorPutAfterRead(root, old(S()), s, S(), rt, Some(tree), if rt != 0 then rt else BestAnchorAt(s, n - 1));
      }
    }

    /** Takes the best anchor back and makes `rt` the best anchor; the old one must be in view. */
    method PopAnchor(rt: Hash)
      requires Valid() && caches != []
      requires BestAnchorAt(S(), |caches|) != rt ==> AnchorAt(root, S(), |caches|, BestAnchorAt(S(), |caches|)).Some?
      modifies this`caches
      ensures Valid() && |caches| == |old(caches)|
      ensures var n := |caches|;
        if BestAnchorAt(old(S()), n) == rt then SameViews(root, old(S()), S())
        else AnchorPut(root, old(S()), S(), BestAnchorAt(old(S()), n), None,
                       if rt != 0 then rt else BestAnchorAt(old(S()), n - 1))
    {
      hide Coherent, SameViews, AnchorPut, BestAnchorAt, AnchorAt;
      var n := |caches|;
      var current := GetBestAnchor(n);
      if current != rt {
        AnchorsAgree(root, old(S()), S(), n, current);
        ghost var r := S();
        var tree := GetAnchorAt(n, current);
        assert tree.Some?;
        ghost var s := S();
        SameViewsTransitive(root, old(S()), r, s);
        TipsAgree(root, old(S()), s, n - 1);
        AnchorsAgree(root, r, s, n, current);
        VisibleTreesHaveTheirRoot(root, s, n, current);
        var e := caches[n - 1].anchors[current].(entered := false, dirty := true);
        PutAnchorEntry(root, s, e, rt);
        caches := caches[n - 1 := caches[n - 1].(anchors := caches[n - 1].anchors[current := e], hashAnchor := rt)];
        AnchorPutAfterRead(root, old(S()), s, S(), current, None, if rt != 0 then rt else BestAnchorAt(s, n - 1));
      }
    }

    /** Pushes the modifications of cache `k` down; the database insists on a best block. */
    method Flush(k: int)
      requires Valid() && 0 <= k < |caches|
      requires k == 0 ==> caches[0].hashBlock != 0
      modifies this`caches, this`db
      ensures Valid() && |caches| == |old(caches)| && S() == Flushed(old(S()), k)
      ensures SameLevel(root, old(S()), k + 1, S(), k) <==> k > 0 || KeepsEmptyTree(root, old(caches)[0])
      ensures k > 0 || KeepsEmptyTree(root, old(caches)[0]) ==>
        forall i :: 0 <= i <= |caches| && i != k ==> SameLevel(root, old(S()), i, S(), i)
      ensures SameTips(old(S()), k + 1, S(), k) <==> k == 0 || TipsSurvive(old(S()), k)
      ensures k == 0 || TipsSurvive(old(S()), k) ==>
        forall i :: 0 <= i <= |caches| && i != k ==> SameTips(old(S()), i, S(), i)
    {
      hide Coherent, SameLevel, Merged, StoredNullifiers, SameTips, TipsSurvive, KeepsEmptyTree;
      ghost var s := S();
      var c := caches[k];
      if k == 0 {
        FlushIntoDatabase(root, s);
        FlushIntoDatabaseShows(root, s);
        FlushTipsIntoDatabase(s);
        db := Stored(db, c);
      } else {
        FlushIntoCache(root, s, k);
        FlushTips(s, k);
        var p := caches[k - 1];
        var ok, coins := BatchWriteCoins(p.coins, c.coins);
        assert ok;
        var anchors := BatchWriteAnchors(p.anchors, c.anchors);
        var nullifiers := BatchWriteNullifiers(p.nullifiers, c.nullifiers);
        caches := caches[k - 1 := Cache(coins, anchors, nullifiers, c.hashBlock, c.hashAnchor)];
      }
      caches := caches[k := Cache(map[], map[], map[], c.hashBlock, c.hashAnchor)];
      assert S() == Flushed(s, k);
    }

    /** `SpendCoin`, with the coin that was visible. */
    method SpendVisible(o: OutPoint) returns (visible: Option<Coin>)
      requires Valid() && caches != []
      modifies this`caches
      ensures Valid() && |caches| == |old(caches)|
      ensures visible == CoinAt(old(S()), |caches|, o)
      ensures CoinPut(root, old(S()), S(), o, None)
    {
      hide Coherent, CoinPut;
      var n := |caches|;
      VisibleCoinsAreUnspent(root, S(), n, o);
      var ok, moved := SpendCoin(o);
      visible := if ok && !moved.IsSpent() then Some(moved) else None;
    }

    /** Makes cache `i - 1` hold its best block and anchor. */
    method ReadTips(i: int)
      requires Valid() && 1 <= i <= |caches|
      modifies this`caches
      ensures Valid() && |caches| == |old(caches)| && SameViews(root, old(S()), S())
      ensures caches[i - 1].hashBlock == BestBlockAt(S(), i) && caches[i - 1].hashAnchor == BestAnchorAt(S(), i)
    {
      hide Coherent, SameViews, BestBlockAt, BestAnchorAt;
      var block := GetBestBlock(i);
      ghost var s := S();
      TipsAgree(root, old(S()), s, i);
      var anchor := GetBestAnchor(i);
      SameViewsTransitive(root, old(S()), s, S());
      TipsAgree(root, old(S()), S(), i);
    }

    /** Whether no nullifier is spent, and every joinsplit stands on a known anchor or one that an earlier one makes. */
    method HaveJoinSplitRequirements(joinSplits: seq<JoinSplit>,
                                     ghost anchor: Hash -> Option<Tree>, ghost nullifier: Hash -> bool)
      returns (ok: bool)
      requires Valid()
      requires forall rt :: AnchorAt(root, S(), |caches|, rt) == anchor(rt)
      requires forall nf :: NullifierAt(S(), |caches|, nf) == nullifier(nf)
      modifies this`caches
      ensures Valid() && |caches| == |old(caches)| && SameViews(root, old(S()), S())
      ensures ok <==> JoinSplitsOk(root, anchor, nullifier, joinSplits)
    {
      hide Coherent, SameViews, AnchorAt, NullifierAt, Recorded, Chained;
      SameViewsReflexive(root, S());
      ghost var s := S();
      var n := |caches|;
      assert VisibleRoots(root, anchor) by {
        forall rt ensures anchor(rt).Some? ==> root(anchor(rt).value) == rt {
          VisibleTreesHaveTheirRoot(root, s, n, rt);
        }
      }
      var intermediates: map<Hash, Tree> := map[];
      ghost var trees := [];
      NothingRecorded(root, anchor, joinSplits);
      for k := 0 to |joinSplits|
        invariant Valid() && |caches| == n && SameViews(root, s, S())
        invariant Unspent(nullifier, joinSplits[..k])
        invariant |trees| == k && Chained(root, anchor, joinSplits, trees)
        invariant Recorded(root, joinSplits, trees, intermediates)
      {
        var js := joinSplits[k];
        var unspent := NoneSpent(js.nullifiers, s, nullifier);
        if !unspent {
          return false;
        }
        var tree: Tree;
        if js.anchor in intermediates {
          tree := intermediates[js.anchor];
        } else {
          ghost var r := S();
          AnchorsAgree(root, s, r, n, js.anchor);
          var found := GetAnchorAt(n, js.anchor);
          SameViewsTransitive(root, s, r, S());
          if found.None? {
            forall all ensures !(|all| == |joinSplits| && Chained(root, anchor, joinSplits, all)) {
              NoTreeNext(root, anchor, joinSplits, trees, intermediates, all);
            }
            return false;
          }
          tree := found.value;
        }
        FoundedNext(root, anchor, joinSplits, trees, intermediates, tree);
        RecordedNext(root, joinSplits, trees, intermediates, tree);
        trees := trees + [tree];
        tree := tree + js.commitments;
        if root(tree) !in intermediates {
          intermediates := intermediates[root(tree) := tree];
        }
      }
      return true;
    }

    /** Whether no nullifier of a joinsplit is spent at the top. */
    method NoneSpent(nullifiers: seq<Hash>, ghost s: State, ghost nullifier: Hash -> bool) returns (ok: bool)
      requires Valid() && |s.caches| == |caches| && SameViews(root, s, S())
      requires forall nf :: NullifierAt(s, |s.caches|, nf) == nullifier(nf)
      modifies this`caches
      ensures Valid() && |caches| == |old(caches)| && SameViews(root, s, S())
      ensures ok <==> forall nf :: nf in nullifiers ==> !nullifier(nf)
    {
      hide Coherent, SameViews, NullifierAt;
      for k := 0 to |nullifiers|
        invariant Valid() && |caches| == |s.caches| && SameViews(root, s, S())
        invariant forall j :: 0 <= j < k ==> !nullifier(nullifiers[j])
      {
        ghost var r := S();
        NullifiersAgree(root, s, r, |caches|, nullifiers[k]);
        var spent := GetNullifier(|caches|, nullifiers[k]);
        SameViewsTransitive(root, s, r, S());
        if spent {
          return false;
        }
      }
      return true;
    }
  }
}
