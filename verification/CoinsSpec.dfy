/**
 * The reference for the coin cache: a pile of flat views without any caching,
 * and the statement that a stack of caches cannot be told apart from it.
 */
module CoinsSpec {
  import opened Common
  import opened CoinsModel
  import opened CoinsFlush
  import opened Coins

  datatype Flat = Flat(
    coin: OutPoint -> Option<Coin>,
    anchor: Hash -> Option<Tree>,
    nullifier: Hash -> bool,
    bestBlock: Hash,
    bestAnchor: Hash)

  /** Level `i` shows exactly `f`. */
  ghost predicate Shows(root: Tree -> Hash, s: State, i: int, f: Flat)
    requires IsLevel(s, i)
  {
    && (forall o :: CoinAt(s, i, o) == f.coin(o))
    && (forall rt :: AnchorAt(root, s, i, rt) == f.anchor(rt))
    && (forall nf :: NullifierAt(s, i, nf) == f.nullifier(nf))
    && BestBlockAt(s, i) == f.bestBlock
    && BestAnchorAt(s, i) == f.bestAnchor
  }

  /** Every level shows its flat view. */
  ghost predicate Refines(root: Tree -> Hash, s: State, fs: seq<Flat>) {
    |fs| == |s.caches| + 1 && forall i :: 0 <= i <= |s.caches| ==> Shows(root, s, i, fs[i])
  }

  datatype Op =
    | ReadCoin(level: int, o: OutPoint)
    | ReadAnchor(level: int, rt: Hash)
    | ReadNullifier(level: int, nf: Hash)
    | ReadBestBlock(level: int)
    | ReadBestAnchor(level: int)
    | DropFromCache(level: int, o: OutPoint)
    | Put(o: OutPoint, coin: Coin, overwrite: bool)
    | Spend(o: OutPoint)
    | SetSpent(nf: Hash, spent: bool)
    | SetBest(hash: Hash)
    | Push(tree: Tree)
    | Pop(rt: Hash)
    | FlushLevel(level: int)
    | NewCache
    | Discard
    | TestJoinSplits(joinSplits: seq<JoinSplit>)

  datatype Answer =
    | Nothing
    | OfCoin(coin: Option<Coin>)
    | OfTree(tree: Option<Tree>)
    | OfBool(b: bool)
    | OfHash(h: Hash)

  /** What callers promise: new coins are new, and the database gets a best block and keeps the empty tree. */
  ghost predicate Allowed(root: Tree -> Hash, fs: seq<Flat>, op: Op)
    requires fs != []
  {
    var n := |fs| - 1;
    match op
    case ReadCoin(i, _) => 0 <= i <= n
    case ReadAnchor(i, _) => 0 <= i <= n
    case ReadNullifier(i, _) => 0 <= i <= n
    case ReadBestBlock(i) => 0 <= i <= n
    case ReadBestAnchor(i) => 0 <= i <= n
    case DropFromCache(i, _) => 1 <= i <= n
    case Put(o, coin, overwrite) => n >= 1 && !coin.IsSpent() && (overwrite || fs[n].coin(o).None?)
    case Pop(rt) => n >= 1 && (fs[n].bestAnchor != rt ==> fs[n].anchor(fs[n].bestAnchor).Some?)
    case FlushLevel(i) =>
      && 1 <= i <= n
      && (i == 1 ==> fs[1].bestBlock != 0 && fs[1].anchor(root([])).Some?)
    case NewCache => true
    case _ => n >= 1
  }

  function PutAt<K(==), V>(f: K -> V, k: K, v: V): K -> V {
    x => if x == k then v else f(x)
  }

  /** The effect of an operation on the flat views. */
  function Step(root: Tree -> Hash, fs: seq<Flat>, op: Op): (r: seq<Flat>)
    requires fs != []
    ensures r != []
  {
    var n := |fs| - 1;
    var f := fs[n];
    match op
    case Put(o, coin, _) =>
      if coin.IsUnspendable() then fs
      else fs[n := f.(coin := PutAt(f.coin, o, Some(coin)))]
    case Spend(o) => fs[n := f.(coin := PutAt(f.coin, o, None))]
    case SetSpent(nf, spent) => fs[n := f.(nullifier := PutAt<Hash, bool>(f.nullifier, nf, spent))]
    case SetBest(hash) =>
      if n == 0 then fs else fs[n := f.(bestBlock := if hash != 0 then hash else fs[n - 1].bestBlock)]
    case Push(tree) =>
      if n == 0 || f.bestAnchor == root(tree) then fs
      else fs[n := f.(anchor := PutAt<Hash, Option<Tree>>(f.anchor, root(tree), Some(tree)),
                      bestAnchor := if root(tree) != 0 then root(tree) else fs[n - 1].bestAnchor)]
    case Pop(rt) =>
      if n == 0 || f.bestAnchor == rt then fs
      else fs[n := f.(anchor := PutAt<Hash, Option<Tree>>(f.anchor, f.bestAnchor, None),
                      bestAnchor := if rt != 0 then rt else fs[n - 1].bestAnchor)]
    case FlushLevel(i) => if 1 <= i <= n then fs[i - 1 := fs[i]] else fs
    case NewCache => fs + [f]
    case Discard => if n == 0 then fs else fs[..n]
    case _ => fs
  }

  ghost function Reply(root: Tree -> Hash, fs: seq<Flat>, op: Op): Answer
    requires fs != []
  {
    var n := |fs| - 1;
    match op
    case ReadCoin(i, o) => if 0 <= i <= n then OfCoin(fs[i].coin(o)) else Nothing
    case ReadAnchor(i, rt) => if 0 <= i <= n then OfTree(fs[i].anchor(rt)) else Nothing
    case ReadNullifier(i, nf) => if 0 <= i <= n then OfBool(fs[i].nullifier(nf)) else Nothing
    case ReadBestBlock(i) => if 0 <= i <= n then OfHash(fs[i].bestBlock) else Nothing
    case ReadBestAnchor(i) => if 0 <= i <= n then OfHash(fs[i].bestAnchor) else Nothing
    case Spend(o) => OfCoin(fs[n].coin(o))
    case TestJoinSplits(js) => OfBool(JoinSplitsOk(root, fs[n].anchor, fs[n].nullifier, js))
    case _ => Nothing
  }

  // How the changes of a stack change what its levels show.

  lemma ShowsSame(root: Tree -> Hash, s: State, i: int, t: State, j: int, f: Flat)
    requires IsLevel(s, i) && IsLevel(t, j)
    requires Shows(root, s, i, f) && SameLevel(root, s, i, t, j) && SameTips(s, i, t, j)
    ensures Shows(root, t, j, f)
  {
    forall o ensures CoinAt(t, j, o) == f.coin(o) { assert CoinAt(s, i, o) == f.coin(o); }
    forall rt ensures AnchorAt(root, t, j, rt) == f.anchor(rt) { assert AnchorAt(root, s, i, rt) == f.anchor(rt); }
    forall nf ensures NullifierAt(t, j, nf) == f.nullifier(nf) { assert NullifierAt(s, i, nf) == f.nullifier(nf); }
  }

  lemma RefinesSame(root: Tree -> Hash, s: State, t: State, fs: seq<Flat>)
    requires Refines(root, s, fs) && SameViews(root, s, t)
    ensures Refines(root, t, fs)
  {
    hide Shows, SameLevel, SameTips;
    forall i | 0 <= i <= |t.caches| ensures Shows(root, t, i, fs[i]) {
      ShowsSame(root, s, i, t, i, fs[i]);
    }
  }

  /** If the levels under the top are as before, only the top needs a look. */
  lemma RefinesTop(root: Tree -> Hash, s: State, t: State, fs: seq<Flat>, f: Flat)
    requires Refines(root, s, fs) && SameUnderTop(root, s, t)
    requires Shows(root, t, |t.caches|, f)
    ensures Refines(root, t, fs[|t.caches| := f])
  {
    hide Shows, SameLevel, SameTips;
    var gs := fs[|t.caches| := f];
    forall i | 0 <= i <= |t.caches| ensures Shows(root, t, i, gs[i]) {
      if i < |t.caches| {
        ShowsSame(root, s, i, t, i, fs[i]);
      }
    }
  }

  lemma RefinesCoinPut(root: Tree -> Hash, s: State, t: State, fs: seq<Flat>, o: OutPoint, v: Option<Coin>)
    requires Refines(root, s, fs) && CoinPut(root, s, t, o, v)
    ensures var n := |s.caches|; var f := fs[n];
      Refines(root, t, fs[n := f.(coin := PutAt(f.coin, o, v))])
  {
    var n := |s.caches|;
    var f := fs[n];
    assert Shows(root, s, n, f);
    RefinesTop(root, s, t, fs, f.(coin := PutAt(f.coin, o, v)));
  }

  lemma RefinesNullifierPut(root: Tree -> Hash, s: State, t: State, fs: seq<Flat>, nf: Hash, spent: bool)
    requires Refines(root, s, fs) && NullifierPut(root, s, t, nf, spent)
    ensures var n := |s.caches|; var f := fs[n];
      Refines(root, t, fs[n := f.(nullifier := PutAt<Hash, bool>(f.nullifier, nf, spent))])
  {
    var n := |s.caches|;
    var f := fs[n];
    assert Shows(root, s, n, f);
    RefinesTop(root, s, t, fs, f.(nullifier := PutAt<Hash, bool>(f.nullifier, nf, spent)));
  }

  lemma RefinesAnchorPut(root: Tree -> Hash, s: State, t: State, fs: seq<Flat>, at: Hash, v: Option<Tree>, best: Hash)
    requires Refines(root, s, fs) && AnchorPut(root, s, t, at, v, best)
    ensures var n := |s.caches|; var f := fs[n];
      Refines(root, t, fs[n := f.(anchor := PutAt<Hash, Option<Tree>>(f.anchor, at, v), bestAnchor := best)])
  {
    var n := |s.caches|;
    var f := fs[n];
    assert Shows(root, s, n, f);
    RefinesTop(root, s, t, fs, f.(anchor := PutAt<Hash, Option<Tree>>(f.anchor, at, v), bestAnchor := best));
  }

  lemma RefinesBestBlock(root: Tree -> Hash, s: State, t: State, fs: seq<Flat>, hash: Hash)
    requires Refines(root, s, fs) && SameUnderTop(root, s, t) && SameLevel(root, s, |s.caches|, t, |s.caches|)
    requires BestAnchorAt(t, |s.caches|) == BestAnchorAt(s, |s.caches|) && BestBlockAt(t, |s.caches|) == hash
    ensures Refines(root, t, fs[|s.caches| := fs[|s.caches|].(bestBlock := hash)])
  {
    var n := |s.caches|;
    assert Shows(root, s, n, fs[n]);
    RefinesTop(root, s, t, fs, fs[n].(bestBlock := hash));
  }

  /** A flush moves the flat view one level down. */
  lemma RefinesFlush(root: Tree -> Hash, s: State, t: State, fs: seq<Flat>, k: int)
    requires Refines(root, s, fs) && |s.caches| == |t.caches| && 0 <= k < |s.caches|
    requires SameLevel(root, s, k + 1, t, k) && SameTips(s, k + 1, t, k)
    requires forall i :: 0 <= i <= |s.caches| && i != k ==> SameLevel(root, s, i, t, i)
    requires forall i :: 0 <= i <= |s.caches| && i != k ==> SameTips(s, i, t, i)
    ensures Refines(root, t, fs[k := fs[k + 1]])
  {
    hide Shows, SameLevel, SameTips;
    var gs := fs[k := fs[k + 1]];
    forall i | 0 <= i <= |t.caches| ensures Shows(root, t, i, gs[i]) {
      if i == k {
        ShowsSame(root, s, k + 1, t, k, fs[k + 1]);
      } else {
        ShowsSame(root, s, i, t, i, fs[i]);
      }
    }
  }

  lemma RefinesNewCache(root: Tree -> Hash, s: State, fs: seq<Flat>, c: Cache)
    requires Coherent(root, s) && Refines(root, s, fs)
    requires c == Cache(map[], map[], map[], 0, 0)
    ensures var t := s.(caches := s.caches + [c]);
      Refines(root, t, fs + [fs[|fs| - 1]])
  {
    hide Shows, SameLevel, SameTips, Fits, DatabaseOk;
    var t, n := s.(caches := s.caches + [c]), |s.caches|;
    var gs := fs + [fs[n]];
    forall i | 0 <= i <= n ensures Shows(root, t, i, gs[i]) {
      SameBelow(root, s, t, i);
      ShowsSame(root, s, i, t, i, fs[i]);
    }
    ClearedFits(root, t, n);
    NewTips(t, n);
    assert Shows(root, t, n, gs[n]) && gs[n] == fs[n];
    ShowsSame(root, t, n, t, n + 1, fs[n]);
  }

  lemma NewTips(t: State, k: int)
    requires 0 <= k < |t.caches| && t.caches[k].hashBlock == 0 && t.caches[k].hashAnchor == 0
    ensures SameTips(t, k, t, k + 1)
  {
  }

  lemma RefinesDiscard(root: Tree -> Hash, s: State, fs: seq<Flat>)
    requires Coherent(root, s) && Refines(root, s, fs) && s.caches != []
    ensures var n := |s.caches|; var t := s.(caches := s.caches[..n - 1]);
      Coherent(root, t) && Refines(root, t, fs[..n])
  {
    hide Shows, SameLevel, SameTips, Fits, DatabaseOk;
    var n := |s.caches|;
    var t := s.(caches := s.caches[..n - 1]);
    forall i | 0 <= i <= n - 1 ensures Shows(root, t, i, fs[..n][i]) {
      SameBelow(root, s, t, i);
      ShowsSame(root, s, i, t, i, fs[i]);
    }
    forall k | 0 <= k < |t.caches| ensures Fits(root, t, k, t.caches[k]) {
      SameBelow(root, s, t, k);
      SameFits(root, s, t, k, s.caches[k]);
    }
  }

  /** Every operation the caller may perform is allowed, along the reference run. */
  ghost predicate AllAllowed(root: Tree -> Hash, fs: seq<Flat>, ops: seq<Op>)
    requires fs != []
    decreases |ops|
  {
    ops != [] ==> Allowed(root, fs, ops[0]) && AllAllowed(root, Step(root, fs, ops[0]), ops[1..])
  }

  /** The replies of the reference run. */
  ghost function Replies(root: Tree -> Hash, fs: seq<Flat>, ops: seq<Op>): seq<Answer>
    requires fs != []
    decreases |ops|
  {
    if ops == [] then [] else [Reply(root, fs, ops[0])] + Replies(root, Step(root, fs, ops[0]), ops[1..])
  }

  /** The flat view of a database. */
  function FlatDatabase(root: Tree -> Hash, db: Database): Flat {
    Flat(o => if o in db.coins then Some(db.coins[o]) else None,
         (rt: Hash) => if rt == root([]) then Some([]) else if rt in db.anchors then Some(db.anchors[rt]) else None,
         (nf: Hash) => nf in db.nullifiers, db.bestBlock, db.bestAnchor)
  }

  predicate IsRead(op: Op) {
    op.ReadCoin? || op.ReadAnchor? || op.ReadNullifier? || op.ReadBestBlock? || op.ReadBestAnchor? || op.DropFromCache?
    || op.TestJoinSplits?
  }

  predicate IsWrite(op: Op) {
    op.Put? || op.Spend? || op.SetSpent? || op.SetBest? || op.Push? || op.Pop?
  }

  method PerformRead(stack: Stack, op: Op, ghost fs: seq<Flat>) returns (answer: Answer)
    requires stack.Valid() && Refines(stack.root, stack.S(), fs) && Allowed(stack.root, fs, op) && IsRead(op)
    modifies stack`caches
    ensures stack.Valid() && Refines(stack.root, stack.S(), Step(stack.root, fs, op))
    ensures answer == Reply(stack.root, fs, op)
  {
    hide Coherent, SameViews, SameLevel, CoinAt, AnchorAt, NullifierAt, BestBlockAt, BestAnchorAt, InjectiveRoot;
    ghost var s := stack.S();
    match op {
      case ReadCoin(i, o) =>
        assert Shows(stack.root, s, i, fs[i]);
        var coin := stack.GetCoin(i, o);
        answer := OfCoin(coin);
      case ReadAnchor(i, rt) =>
        assert Shows(stack.root, s, i, fs[i]);
        var tree := stack.GetAnchorAt(i, rt);
        answer := OfTree(tree);
      case ReadNullifier(i, nf) =>
        assert Shows(stack.root, s, i, fs[i]);
        var spent := stack.GetNullifier(i, nf);
        answer := OfBool(spent);
      case ReadBestBlock(i) =>
        assert Shows(stack.root, s, i, fs[i]);
        var hash := stack.GetBestBlock(i);
        answer := OfHash(hash);
      case ReadBestAnchor(i) =>
        assert Shows(stack.root, s, i, fs[i]);
        var hash := stack.GetBestAnchor(i);
        answer := OfHash(hash);
      case DropFromCache(i, o) =>
        stack.Uncache(i - 1, o);
        answer := Nothing;
      case TestJoinSplits(joinSplits) =>
        ghost var f := fs[|stack.caches|];
        assert Shows(stack.root, s, |stack.caches|, f);
        var ok := stack.HaveJoinSplitRequirements(joinSplits, f.anchor, f.nullifier);
        answer := OfBool(ok);
    }
    RefinesSame(stack.root, s, stack.S(), fs);
  }

  method PerformWrite(stack: Stack, op: Op, ghost fs: seq<Flat>) returns (answer: Answer)
    requires stack.Valid() && Refines(stack.root, stack.S(), fs) && Allowed(stack.root, fs, op) && IsWrite(op)
    modifies stack`caches
    ensures stack.Valid() && Refines(stack.root, stack.S(), Step(stack.root, fs, op))
    ensures answer == Reply(stack.root, fs, op)
  {
    hide Coherent, SameViews, SameLevel, CoinPut, NullifierPut, AnchorPut, SameUnderTop;
    hide AnchorAt, NullifierAt, BestBlockAt, BestAnchorAt, InjectiveRoot, PutAt;
    ghost var s, n := stack.S(), |stack.caches|;
    assert Shows(stack.root, s, n, fs[n]);
    assert Shows(stack.root, s, n - 1, fs[n - 1]);
    answer := Nothing;
    match op {
      case Put(o, coin, overwrite) =>
        var threw := stack.AddCoin(o, coin, overwrite);
        if !coin.IsUnspendable() {
          RefinesCoinPut(stack.root, s, stack.S(), fs, o, Some(coin));
        }
      case Spend(o) =>
        var visible := stack.SpendVisible(o);
        answer := OfCoin(visible);
        RefinesCoinPut(stack.root, s, stack.S(), fs, o, None);
      case SetSpent(nf, spent) =>
        stack.SetNullifier(nf, spent);
        RefinesNullifierPut(stack.root, s, stack.S(), fs, nf, spent);
      case SetBest(hash) =>
        stack.SetBestBlock(hash);
        RefinesBestBlock(stack.root, s, stack.S(), fs, if hash != 0 then hash else fs[n - 1].bestBlock);
      case Push(tree) =>
        var rt := stack.root(tree);
        stack.PushAnchor(tree);
        if fs[n].bestAnchor == rt {
          RefinesSame(stack.root, s, stack.S(), fs);
        } else {
          RefinesAnchorPut(stack.root, s, stack.S(), fs, rt, Some(tree), if rt != 0 then rt else fs[n - 1].bestAnchor);
        }
      case Pop(rt) =>
        stack.PopAnchor(rt);
        if fs[n].bestAnchor == rt {
          RefinesSame(stack.root, s, stack.S(), fs);
        } else {
          RefinesAnchorPut(stack.root, s, stack.S(), fs, fs[n].bestAnchor, None,
                           if rt != 0 then rt else fs[n - 1].bestAnchor);
        }
    }
  }

  method PerformShape(stack: Stack, op: Op, ghost fs: seq<Flat>) returns (answer: Answer)
    requires stack.Valid() && Refines(stack.root, stack.S(), fs) && Allowed(stack.root, fs, op)
    requires op.FlushLevel? || op.NewCache? || op.Discard?
    modifies stack
    ensures stack.Valid() && Refines(stack.root, stack.S(), Step(stack.root, fs, op))
    ensures answer == Reply(stack.root, fs, op)
  {
    hide Coherent, SameViews, SameLevel, CoinAt, AnchorAt, NullifierAt, BestBlockAt, BestAnchorAt, InjectiveRoot;
    hide SameTips, Flushed, TipsSurvive;
    ghost var s, n := stack.S(), |stack.caches|;
    answer := Nothing;
    match op {
      case FlushLevel(i) =>
        assert Shows(stack.root, s, i, fs[i]);
        stack.ReadTips(i);
        ghost var r := stack.S();
        RefinesSame(stack.root, s, r, fs);
        assert Shows(stack.root, r, i, fs[i]);
        if i == 1 {
          EmptyTreeKept(stack.root, r);
        } else {
          TipsReadSurvive(r, i - 1);
        }
        stack.Flush(i - 1);
        RefinesFlush(stack.root, r, stack.S(), fs, i - 1);
      case NewCache =>
        RefinesNewCache(stack.root, s, fs, Cache(map[], map[], map[], 0, 0));
        stack.NewCache();
      case Discard =>
        RefinesDiscard(stack.root, s, fs);
        stack.caches := stack.caches[..|stack.caches| - 1];
    }
  }

  lemma EmptyTreeKept(root: Tree -> Hash, s: State)
    requires s.caches != [] && AnchorAt(root, s, 1, root([])).Some?
    ensures KeepsEmptyTree(root, s.caches[0])
  {
  }

  /** Once a cache has read its best hashes, flushing it hands them down. */
  lemma TipsReadSurvive(s: State, k: int)
    requires 1 <= k < |s.caches|
    requires s.caches[k].hashBlock == BestBlockAt(s, k + 1) && s.caches[k].hashAnchor == BestAnchorAt(s, k + 1)
    ensures TipsSurvive(s, k)
  {
    var best := s.caches[k - 1].hashBlock;
    assert BestBlockAt(s, k) == if best != 0 then best else BestBlockAt(s, k - 1);
    assert BestAnchorAt(s, k) ==
      if s.caches[k - 1].hashAnchor != 0 then s.caches[k - 1].hashAnchor else BestAnchorAt(s, k - 1);
  }

  /** One operation on a stack: it answers and changes as the reference does. */
  method Perform(stack: Stack, op: Op, ghost fs: seq<Flat>) returns (answer: Answer)
    requires stack.Valid() && Refines(stack.root, stack.S(), fs) && Allowed(stack.root, fs, op)
    modifies stack
    ensures stack.Valid() && Refines(stack.root, stack.S(), Step(stack.root, fs, op))
    ensures answer == Reply(stack.root, fs, op)
  {
    hide Coherent, Refines, Step, Reply, InjectiveRoot, Allowed;
    if IsRead(op) {
      answer := PerformRead(stack, op, fs);
    } else if IsWrite(op) {
      answer := PerformWrite(stack, op, fs);
    } else {
      answer := PerformShape(stack, op, fs);
    }
  }

  lemma DatabaseRefines(root: Tree -> Hash, s: State, db: Database)
    requires s == State(db, [])
    ensures Refines(root, s, [FlatDatabase(root, db)])
  {
    assert Shows(root, s, 0, FlatDatabase(root, db));
  }

  lemma RunNext(root: Tree -> Hash, fs: seq<Flat>, ops: seq<Op>)
    requires fs != [] && ops != [] && AllAllowed(root, fs, ops)
    ensures Allowed(root, fs, ops[0]) && AllAllowed(root, Step(root, fs, ops[0]), ops[1..])
    ensures Replies(root, fs, ops) == [Reply(root, fs, ops[0])] + Replies(root, Step(root, fs, ops[0]), ops[1..])
  {
    hide Allowed, Reply, Step;
  }

  lemma NoReplies(root: Tree -> Hash, fs: seq<Flat>)
    requires fs != []
    ensures Replies(root, fs, []) == []
  {
  }

  /** Every allowed run on a stack over a database answers exactly like the flat reference. */
  method Run(root: Tree -> Hash, db: Database, ops: seq<Op>) returns (answers: seq<Answer>)
    requires InjectiveRoot(root) && DatabaseOk(root, db)
    requires AllAllowed(root, [FlatDatabase(root, db)], ops)
    ensures answers == Replies(root, [FlatDatabase(root, db)], ops)
  {
    hide Coherent, Refines, Step, Reply, InjectiveRoot, Allowed, AllAllowed, Replies, FlatDatabase, DatabaseOk;
    var stack := new Stack(root, db);
    ghost var fs := [FlatDatabase(root, db)];
    ghost var start := fs;
    DatabaseRefines(root, stack.S(), db);
    answers := [];
    assert ops[0..] == ops;
    for n := 0 to |ops|
      invariant fresh(stack) && stack.root == root && stack.Valid() && fs != []
      invariant Refines(root, stack.S(), fs) && AllAllowed(root, fs, ops[n..])
      invariant Replies(root, start, ops) == answers + Replies(root, fs, ops[n..])
    {
      RunNext(root, fs, ops[n..]);
      var answer := Perform(stack, ops[n], fs);
      assert ops[n..][1..] == ops[n + 1..];
      answers := answers + [answer];
      fs := Step(root, fs, ops[n]);
    }
    assert ops[|ops|..] == [];
    NoReplies(root, fs);
  }

  // Inputs on which the caches and their flat counterparts differ.

  /** A stack of one empty cache on a database. */
  method OneCache(root: Tree -> Hash, db: Database) returns (stack: Stack)
    requires InjectiveRoot(root) && DatabaseOk(root, db)
    ensures stack.Valid() && stack.root == root && stack.S() == State(db, [Cache(map[], map[], map[], 0, 0)])
    ensures fresh(stack)
  {
    hide Coherent, InjectiveRoot, DatabaseOk;
    stack := new Stack(root, db);
    stack.NewCache();
  }

  /** A popped empty tree is back once the cache is flushed into the database. */
  method PopEmptyTree(root: Tree -> Hash, rt: Hash) returns (before: Option<Tree>, after: Option<Tree>)
    requires InjectiveRoot(root) && rt != root([]) && rt != 0
    ensures before == None && after == Some([])
  {
    hide Coherent, InjectiveRoot, SameLevel, KeepsEmptyTree, TipsSurvive, SameTips;
    var stack := OneCache(root, Database(map[], map[], {}, 0, root([])));
    stack.SetBestBlock(1);
    ghost var r := stack.S();
    EmptyTreeShown(root, r);
    stack.PopAnchor(rt);
    ghost var s := stack.S();
    before := stack.GetAnchorAt(1, root([]));
    TipsAgree(root, s, stack.S(), 1);
    assert BestBlockAt(s, 1) == 1;
    assert BestBlockAt(stack.S(), 1) == 1;
    assert BestBlockAt(stack.S(), 0) == 0;
    assert stack.caches[0].hashBlock != 0;
    stack.Flush(0);
    assert stack.caches[0].anchors == map[];
    after := stack.GetAnchorAt(1, root([]));
  }

  lemma EmptyTreeShown(root: Tree -> Hash, s: State)
    requires |s.caches| == 1 && s.db == Database(map[], map[], {}, 0, root([]))
    requires SameLevel(root, State(s.db, [Cache(map[], map[], map[], 0, 0)]), 1, s, 1)
    ensures AnchorAt(root, s, 1, root([])) == Some([])
  {
    var t := State(s.db, [Cache(map[], map[], map[], 0, 0)]);
    assert AnchorAt(root, t, 0, root([])) == Some([]);
    assert AnchorAt(root, t, 1, root([])) == AnchorAt(root, s, 1, root([]));
  }

  /** A parent loses its own best block to a child that never read one. */
  method LoseTip(root: Tree -> Hash) returns (ghost before: Hash, after: Hash)
    requires InjectiveRoot(root)
    ensures before == 5 && after == 7
  {
    hide Coherent, InjectiveRoot, SameLevel, SameTips, KeepsEmptyTree, TipsSurvive;
    var stack := OneCache(root, Database(map[], map[], {}, 7, root([])));
    stack.SetBestBlock(5);
    ghost var r := stack.S();
    stack.NewCache();
    ghost var s := stack.S();
    assert BestBlockAt(r, 1) == 5 && s.caches[0] == r.caches[0];
    assert BestBlockAt(s, 1) == 5;
    before := BestBlockAt(s, 2);
    stack.Flush(1);
    assert stack.caches[0].hashBlock == 0;
    after := stack.GetBestBlock(1);
  }

  /** A coin of the database can be spent twice in one cache; the second time there is nothing to hand out. */
  method SpendTwice(root: Tree -> Hash, o: OutPoint, coin: Coin) returns (first: bool, second: bool, moved: Coin)
    requires InjectiveRoot(root) && !coin.IsSpent()
    ensures first && second && moved.IsSpent()
  {
    hide Coherent, InjectiveRoot, SameLevel, SameTips;
    var stack := OneCache(root, Database(map[o := coin], map[], {}, 0, root([])));
    ghost var s := stack.S();
    assert CoinAt(s, 0, o) == Some(coin) && CoinAt(s, 1, o) == Some(coin);
    first, moved := stack.SpendCoin(o);
    second, moved := stack.SpendCoin(o);
  }
}
