/**
 * Block assembly: package selection over the mempool, where the totals of a
 * transaction with its ancestors are corrected lazily in a side table.
 */
module Miner {
  import opened Common
  import opened MinerModel

  /** One step of `UpdatePackagesForAdded`: the descendants of `it` no longer wait for it. */
  method UpdateDescendants(m: Mempool, it: Tx, added: set<Tx>, table: map<Tx, Totals>,
                           ghost was: map<Tx, Totals>, ghost seen: set<Tx>)
    returns (updated: nat, result: map<Tx, Totals>)
    requires it in added && it !in seen && was.Keys <= m.txs && was.Keys !! added
    requires UpdatedFor(m, added, was, seen, table)
    ensures updated == |Descendants(m, it) - added|
    ensures UpdatedFor(m, added, was, seen + {it}, result)
  {
    hide UpdatedFor, Descendants, LessParent, Updating, Counted;
    UpdateStart(m, added, was, seen, it, table);
    result, updated := table, 0;
    var todo := Descendants(m, it);
    CountNone(todo, added);
    while todo != {}
      invariant todo <= Descendants(m, it) && updated == Counted(Descendants(m, it), todo, added)
      invariant Updating(m, added, was, seen, it, todo, result)
      decreases todo
    {
      var desc := Pick(todo);
      CountNext(Descendants(m, it), todo, added, desc);
      if desc !in added {
        updated := updated + 1;
        UpdateStep(m, added, was, seen, it, todo, result, desc);
        if desc !in result {
          result := result[desc := LessParent(m, m.withAncestors(desc), m.modifiedFee(it), it)];
        } else {
          result := result[desc := LessParent(m, result[desc], m.fee(it), it)];
        }
      } else {
        UpdateSkip(m, added, was, seen, it, todo, result, desc);
      }
      todo := todo - {desc};
    }
    CountAll(Descendants(m, it), added);
    UpdateEnd(m, added, was, seen, it, result);
  }

  function Counted(all: set<Tx>, todo: set<Tx>, added: set<Tx>): nat { |all - todo - added| }

  lemma CountNone(all: set<Tx>, added: set<Tx>)
    ensures Counted(all, all, added) == 0
  {
    assert all - all - added == {};
  }

  lemma CountNext(all: set<Tx>, todo: set<Tx>, added: set<Tx>, desc: Tx)
    requires desc in todo && todo <= all
    ensures Counted(all, todo - {desc}, added) == Counted(all, todo, added) + (if desc in added then 0 else 1)
  {
    var before := all - todo - added;
    assert all - (todo - {desc}) - added == if desc in added then before else before + {desc};
  }

  lemma CountAll(all: set<Tx>, added: set<Tx>)
    ensures Counted(all, {}, added) == |all - added|
  {
    assert all - {} - added == all - added;
  }

  /** Moves the totals of all waiting descendants past the transactions just added to the block. */
  method UpdatePackagesForAdded(m: Mempool, added: set<Tx>, table: map<Tx, Totals>)
    returns (updated: nat, result: map<Tx, Totals>)
    requires table.Keys <= m.txs && table.Keys !! added
    ensures Updated(m, added, table, result)
    ensures updated == Sum(Pairs(m, added), added)
  {
    hide UpdatedFor, Sum, Pairs, Descendants, Updated;
    UpdateNothing(m, added, table);
    result, updated := table, 0;
    var todo := added;
    ghost var seen := {};
    SumNothing(Pairs(m, added));
    while todo != {}
      invariant todo <= added && seen !! todo && seen + todo == added
      invariant updated == Sum(Pairs(m, added), seen)
      invariant UpdatedFor(m, added, table, seen, result)
      decreases todo
    {
      var it := Pick(todo);
      var n;
      n, result := UpdateDescendants(m, it, added, result, table, seen);
      PairsAt(m, added, it);
      SumAdd(Pairs(m, added), seen, it);
      updated := updated + n;
      todo := todo - {it};
      seen := seen + {it};
    }
    assert seen == added;
    UpdatedAll(m, added, table, result);
  }

  lemma UpdatedAll(m: Mempool, added: set<Tx>, table: map<Tx, Totals>, result: map<Tx, Totals>)
    requires UpdatedFor(m, added, table, added, result)
    ensures Updated(m, added, table, result)
  {
  }

  lemma PairsAt(m: Mempool, added: set<Tx>, it: Tx)
    ensures Pairs(m, added)(it) == |Descendants(m, it) - added|
  {
  }

  /** The transactions before number `n`. */
  function Below(n: nat): set<Tx> {
    if n == 0 then {} else Below(n - 1) + {n - 1}
  }

  /** Three transactions, each on the ones before, with a fee of 1 that counts as 11. */
  function Family(): Mempool {
    Mempool({0, 1, 2}, t => Below(t), t => 250, t => 1000, t => 4, t => 1, t => 11,
            t => Totals(250 * (t + 1), 11 * (t + 1), 4 * (t + 1)), t => t + 1, t => t, [0, 1, 2])
  }

  lemma FamilyPackage()
    ensures Package(Family(), 2) == {0, 1, 2} && Family().modifiedFee(2) == 11 && Family().withAncestors(2).fees == 33
  {
    assert Below(1) == {0} && Below(2) == {0, 1};
  }

  lemma FamilyFees(fees: int)
    requires FeesAre(Family(), fees, 33, {0, 1})
    ensures fees == 21
  {
    var m := Family();
    SumIntRemove(m.fee, {0, 1}, 0);
    assert {0, 1} - {0} == {1};
    SumIntRemove(m.fee, {1}, 1);
    assert {1} - {1} == {};
  }

  /**
   * Once the first two of them are in the block, the third is taken to bring 21: only for one of the two
   * the priority is taken off.
   */
  method PriorityStays() returns (table: map<Tx, Totals>)
    ensures Package(Family(), 2) == {0, 1, 2} && Family().modifiedFee(2) == 11
    ensures 2 in table && table[2].fees == 21
  {
    FamilyPackage();
    var n;
    n, table := UpdatePackagesForAdded(Family(), {0, 1}, map[]);
    FamilyEntry(table);
  }

  lemma FamilyEntry(table: map<Tx, Totals>)
    requires Updated(Family(), {0, 1}, map[], table)
    ensures 2 in table && table[2].fees == 21
  {
    FamilyPackage();
    assert 2 in Family().txs;
    hide Family, Package, SumInt, Sum;
    assert Package(Family(), 2) * {0, 1} == {0, 1};
    assert 0 in Package(Family(), 2) * {0, 1};
    assert Touched(Family(), {0, 1}, {0, 1}, 2);
    assert ReducedBy(Family(), map[], 2, {0, 1}, table[2]);
    FamilyFees(table[2].fees);
  }

  lemma SumNothing(f: Tx -> nat)
    ensures Sum(f, {}) == 0
  {
  }

  lemma UpdateNothing(m: Mempool, added: set<Tx>, table: map<Tx, Totals>)
    ensures UpdatedFor(m, added, table, {}, table)
  {
    hide ReducedBy;
    forall t | t in table ensures ReducedBy(m, table, t, Package(m, t) * {}, table[t]) {
      ReducedNone(m, table, t);
      assert Package(m, t) * {} == {};
    }
  }

  method First(m: Mempool, s: set<Tx>) returns (first: Tx)
    requires s != {}
    ensures first in s && forall t :: t in s ==> !Before(m, t, first)
  {
    first := Pick(s);
    var todo := s - {first};
    while todo != {}
      invariant todo <= s && first in s
      invariant forall t :: t in s && t !in todo ==> !Before(m, t, first)
      decreases todo
    {
      var t := Pick(todo);
      if Before(m, t, first) {
        first := t;
      }
      todo := todo - {t};
    }
  }

  /** The package in order of ancestor count, ties by hash. */
  method SortForBlock(m: Mempool, package: set<Tx>) returns (sorted: seq<Tx>)
    ensures Elements(sorted) == package
    ensures forall i, j :: 0 <= i < j < |sorted| ==> sorted[i] != sorted[j] && !Before(m, sorted[j], sorted[i])
  {
    hide Before;
    sorted := [];
    var rest := package;
    while rest != {}
      invariant Elements(sorted) == package - rest && rest <= package
      invariant forall i, j :: 0 <= i < j < |sorted| ==> sorted[i] != sorted[j] && !Before(m, sorted[j], sorted[i])
      invariant forall i, t :: 0 <= i < |sorted| && t in rest ==> !Before(m, t, sorted[i])
      decreases rest
    {
      var t := First(m, rest);
      assert t !in Elements(sorted);
      ElementsAppend(sorted, t);
      rest := rest - {t};
      sorted := sorted + [t];
    }
  }

  class BlockAssembler {
    const maxWeight: int
    const minFee: int -> int
    var block: seq<Tx>
    var inBlock: set<Tx>
    var blockWeight: int
    var blockSigOps: int
    var blockTx: int
    var fees: int

    /** The limit is kept between 4000 and the network limit less 4000. */
    constructor (maxWeight: int, minFee: int -> int)
      ensures 4000 <= this.maxWeight <= MAX_BLOCK_WEIGHT - 4000
      ensures 4000 <= maxWeight <= MAX_BLOCK_WEIGHT - 4000 ==> this.maxWeight == maxWeight
      ensures this.minFee == minFee
    {
      var capped := if maxWeight < MAX_BLOCK_WEIGHT - 4000 then maxWeight else MAX_BLOCK_WEIGHT - 4000;
      this.maxWeight := if capped < 4000 then 4000 else capped;
      this.minFee := minFee;
    }

    /** The block so far: well ordered, with counters that add up. */
    ghost predicate BlockOk(m: Mempool)
      reads this
    {
      && WellOrdered(m, block)
      && inBlock == Elements(block)
      && blockTx == |block|
      && blockWeight == 4000 + Sum(m.weight, inBlock)
      && blockSigOps == 400 + Sum(m.sigOps, inBlock)
      && fees == FeeTotal(m, block)
    }

    ghost predicate WithinLimits()
      reads this
    {
      4000 <= blockWeight <= maxWeight && blockSigOps < MAX_BLOCK_SIGOPS_COST
    }

    method ResetBlock(ghost m: Mempool)
      requires 4000 <= maxWeight
      modifies this
      ensures BlockOk(m) && WithinLimits() && block == [] && inBlock == {}
    {
      block, inBlock := [], {};
      blockWeight, blockSigOps := 4000, 400;
      blockTx, fees := 0, 0;
    }

    predicate TestPackage(size: int, sigOps: int)
      reads this
    {
      && blockWeight + WITNESS_SCALE_FACTOR * size < maxWeight
      && blockSigOps + sigOps < MAX_BLOCK_SIGOPS_COST
    }

    method AddToBlock(m: Mempool, t: Tx)
      requires BlockOk(m) && t in m.txs && t !in inBlock && m.ancestors(t) <= inBlock
      modifies this
      ensures BlockOk(m) && block == old(block) + [t] && inBlock == old(inBlock) + {t}
    {
      hide WellOrdered, Sum;
      AppendOrdered(m, block, t);
      SumAdd(m.weight, inBlock, t);
      SumAdd(m.sigOps, inBlock, t);
      assert (block + [t])[..|block|] == block;
      block := block + [t];
      blockWeight := blockWeight + m.weight(t);
      blockTx := blockTx + 1;
      blockSigOps := blockSigOps + m.sigOps(t);
      fees := fees + m.fee(t);
      inBlock := inBlock + {t};
    }

    /** Adds a tested package to the block, in order of ancestor count, and updates the side table. */
    method AddPackage(m: Mempool, iter: Tx, package: set<Tx>, totals: Totals, table: map<Tx, Totals>)
      returns (updated: nat, result: map<Tx, Totals>)
      requires ValidMempool(m) && BlockOk(m) && WithinLimits() && iter in m.txs && iter !in inBlock
      requires package == Package(m, iter) - inBlock
      requires TableOk(m, table, inBlock)
      requires Covers(m, totals, iter, inBlock) && TestPackage(totals.size, totals.sigOps)
      modifies this
      ensures BlockOk(m) && WithinLimits() && TableOk(m, result, inBlock)
      ensures Updated(m, package, table - package, result) && updated == Sum(Pairs(m, package), package)
      ensures inBlock == old(inBlock) + package && old(block) <= block
      ensures forall t :: t in block[|old(block)|..] ==> t in package
      ensures forall i, j :: |old(block)| <= i < j < |block| ==> !Before(m, block[j], block[i])
    {
      hide ValidMempool, WellOrdered, Sum, Covers, Before, TableOk, Updated;
      ghost var before := inBlock;
      PackageFits(m, iter, inBlock, totals);
      var sorted := SortForBlock(m, package);
      result := table;
      for i := 0 to |sorted|
        invariant BlockOk(m) && inBlock == before + Elements(sorted[..i]) && block == old(block) + sorted[..i]
        invariant result == table - Elements(sorted[..i])
      {
        SortedPackageOrder(m, iter, before, sorted, i);
        assert Elements(sorted[..i + 1]) == Elements(sorted[..i]) + {sorted[i]};
        AddToBlock(m, sorted[i]);
        result := result - {sorted[i]};
      }
      assert sorted[..|sorted|] == sorted;
      assert block[|old(block)|..] == sorted;
      OrderedIsClosed(m, old(block));
      EraseAll(m, table, before, package);
      updated, result := UpdatePackagesForAdded(m, package, result);
      UpdatedOk(m, package, table - package, result, before);
      SumUnion(m.weight, before, package);
      SumUnion(m.sigOps, before, package);
    }

    /** `SkipMapTxEntry`: already in the block, or its cached totals are stale, or it has failed before. */
    predicate Skip(t: Tx, table: map<Tx, Totals>, failed: set<Tx>)
      reads this
    {
      t in table || t in inBlock || t in failed
    }

    ghost function RulesOf(includable: Tx -> bool): Rules {
      Rules(maxWeight, minFee, includable)
    }

    /** Tests the package of one transaction and adds it if it passes. */
    method Consider(m: Mempool, iter: Tx, totals: Totals, includable: Tx -> bool, table: map<Tx, Totals>)
      returns (outcome: Outcome, updated: nat, result: map<Tx, Totals>)
      requires ValidMempool(m) && BlockOk(m) && WithinLimits() && iter in m.txs && iter !in inBlock
      requires TableOk(m, table, inBlock) && Covers(m, totals, iter, inBlock)
      modifies this
      ensures BlockOk(m) && WithinLimits() && TableOk(m, result, inBlock)
      ensures outcome == Verdict(m, RulesOf(includable), iter, totals, old(inBlock))
      ensures updated == UpdatesOf(m, Trial(iter, totals, old(inBlock), outcome))
      ensures outcome != Added ==> block == old(block) && inBlock == old(inBlock) && result == table
      ensures outcome == Added ==>
        && inBlock == old(inBlock) + Package(m, iter) && old(block) <= block
        && var package := Package(m, iter) - old(inBlock); Updated(m, package, table - package, result)
      ensures forall t :: t in block[|old(block)|..] ==> includable(t)
    {
      hide ValidMempool, WellOrdered, Sum, Covers, FeeTotal, TableOk, Updated;
      if !TestPackage(totals.size, totals.sigOps) {
        return TooBig, 0, table;
      }
      var package := m.ancestors(iter) - inBlock + {iter};
      assert package == Package(m, iter) - inBlock;
      if exists t :: t in package && !includable(t) {
        return NotFinal, 0, table;
      }
      updated, result := AddPackage(m, iter, package, totals, table);
      return Added, updated, result;
    }

    /** The next transaction: from the mempool, or from the side table with its corrected totals. */
    method Choose(m: Mempool, mi: int, table: map<Tx, Totals>, failed: set<Tx>)
      returns (usingModified: bool, iter: Tx, totals: Totals)
      requires ValidMempool(m) && TableOk(m, table, inBlock) && 0 <= mi <= |m.order|
      requires TableExact(m, table, inBlock, failed)
      requires mi < |m.order| || table != map[]
      requires mi < |m.order| ==> !Skip(m.order[mi], table, failed)
      ensures iter in m.txs && iter !in inBlock && Covers(m, totals, iter, inBlock)
      ensures iter !in failed ==> Exactly(m, totals, iter, inBlock)
      ensures usingModified ==> iter in table && totals == table[iter]
      ensures !usingModified ==> mi < |m.order| && iter == m.order[mi] && iter !in failed
    {
      hide ValidMempool, Covers, Exactly;
      usingModified := mi == |m.order|;
      if mi < |m.order| && table != map[] {
        usingModified := *;
      }
      if usingModified {
        KeysNonEmpty(table);
        iter := Pick(table.Keys);
        totals := table[iter];
      } else {
        iter := m.order[mi];
        OrderInMempool(m, mi);
        FullTotalsCover(m, iter, inBlock);
        totals := m.withAncestors(iter);
      }
    }

    /** Considers one transaction; one of the side table that is not added is taken out of it and has failed. */
    method TryPackage(m: Mempool, iter: Tx, totals: Totals, usingModified: bool, includable: Tx -> bool,
                      table: map<Tx, Totals>, failed: set<Tx>)
      returns (outcome: Outcome, updated: nat, result: map<Tx, Totals>, failed': set<Tx>)
      requires ValidMempool(m) && BlockOk(m) && WithinLimits() && iter in m.txs && iter !in inBlock
      requires TableOk(m, table, inBlock) && Covers(m, totals, iter, inBlock) && (usingModified ==> iter in table)
      requires TableExact(m, table, inBlock, failed)
      modifies this
      ensures BlockOk(m) && WithinLimits() && TableOk(m, result, inBlock) && old(block) <= block
      ensures TableExact(m, result, inBlock, failed')
      ensures outcome == Verdict(m, RulesOf(includable), iter, totals, old(inBlock))
      ensures updated == UpdatesOf(m, Trial(iter, totals, old(inBlock), outcome))
      ensures forall t :: t in block[|old(block)|..] ==> includable(t)
      ensures outcome == Added ==>
        && inBlock == old(inBlock) + Package(m, iter) && failed' == failed
        && forall t :: t in table ==> t in result || t in inBlock
      ensures outcome != Added ==>
        && block == old(block) && inBlock == old(inBlock)
        && (usingModified ==> result == table - {iter} && |result| == |table| - 1 && failed' == failed + {iter})
        && (!usingModified ==> result == table && failed' == failed)
    {
      hide ValidMempool, Sum, Covers, FeeTotal, WellOrdered, TableOk, TableExact, Updated, Verdict, UpdatesOf;
      failed' := failed;
      ghost var package := Package(m, iter) - inBlock;
      OrderedIsClosed(m, block);
      outcome, updated, result := Consider(m, iter, totals, includable, table);
      if outcome == Added {
        UpdatedExact(m, package, table, result, old(inBlock), failed);
        assert old(inBlock) + package == inBlock;
        UpdatedKeeps(m, package, table - package, result);
      } else if usingModified {
        ShrinkTable(table, iter);
        TableErase(m, table, inBlock, iter);
        ExactErase(m, table, inBlock, failed, iter);
        result := table - {iter};
        failed' := failed + {iter};
      }
    }

    /** A selection that goes on: `first` and `start` are what the block held at its start. */
    ghost predicate Going(m: Mempool, includable: Tx -> bool, first: seq<Tx>, start: set<Tx>, mi: int,
                          table: map<Tx, Totals>, failed: set<Tx>, trials: seq<Trial>)
      reads this
    {
      && BlockOk(m) && WithinLimits() && TableOk(m, table, inBlock) && TableExact(m, table, inBlock, failed)
      && first <= block && AllMeet(block[|first|..], includable)
      && Walked(m, mi, inBlock, table, trials)
      && Progress(m, RulesOf(includable), start, trials, inBlock, failed)
    }

    lemma GoingSkip(m: Mempool, includable: Tx -> bool, first: seq<Tx>, start: set<Tx>, mi: int,
                    table: map<Tx, Totals>, failed: set<Tx>, trials: seq<Trial>)
      requires Going(m, includable, first, start, mi, table, failed, trials)
      requires 0 <= mi < |m.order| && Skip(m.order[mi], table, failed)
      ensures Going(m, includable, first, start, mi + 1, table, failed, trials)
    {
      hide BlockOk, WithinLimits, TableOk, TableExact, AllMeet, Walked, Progress;
      WalkedSkip(m, RulesOf(includable), start, trials, inBlock, failed, mi, table);
    }

    /** Tries a package that paid, and notes the trial. */
    method RunTrial(m: Mempool, ghost from: int, ghost mi: int, iter: Tx, totals: Totals, usingModified: bool,
                    includable: Tx -> bool, table: map<Tx, Totals>, failed: set<Tx>, ghost first: seq<Tx>,
                    ghost start: set<Tx>, ghost trials: seq<Trial>)
      returns (outcome: Outcome, updated: nat, result: map<Tx, Totals>, failed': set<Tx>, ghost all: seq<Trial>)
      requires ValidMempool(m) && Going(m, includable, first, start, from, table, failed, trials)
      requires iter in m.txs && iter !in inBlock && Covers(m, totals, iter, inBlock)
      requires usingModified ==> iter in table
      requires (iter !in failed ==> Exactly(m, totals, iter, inBlock)) && totals.fees >= minFee(totals.size)
      requires if usingModified then mi == from else mi == from + 1 <= |m.order| && m.order[from] == iter
      modifies this
      ensures outcome == Added ==> iter in inBlock && old(inBlock) <= inBlock
      ensures outcome != Added ==>
        inBlock == old(inBlock) && (if usingModified then |result| == |table| - 1 else result == table)
      ensures all == trials + [Trial(iter, totals, old(inBlock), outcome)]
      ensures Failures(all) == if outcome == Added then 0 else Failures(trials) + (if outcome == TooBig then 1 else 0)
      ensures Packages(all) == Packages(trials) + (if outcome == Added then 1 else 0)
      ensures Updates(m, all) == Updates(m, trials) + updated
      ensures BlockOk(m) && WithinLimits() && first <= block && AllMeet(block[|first|..], includable)
      ensures
        if outcome == TooBig && Failures(all) > MAX_CONSECUTIVE_FAILURES && blockWeight > maxWeight - 4000 then
          Selected(m, RulesOf(includable), start, all, inBlock, GaveUp)
        else Going(m, includable, first, start, mi, result, failed', all)
    {
      hide ValidMempool, Sum, Covers, FeeTotal, WellOrdered, TableOk, TableExact, Progress, Walked, Verdict, Exactly,
        GivesUp, Failures, Packages, Selected, Selecting, Package, WithinLimits, Updates, UpdatesOf;
      ghost var included, was := inBlock, block;
      outcome, updated, result, failed' := TryPackage(m, iter, totals, usingModified, includable, table, failed);
      MeetMore(first, was, block, includable);
      ghost var trial := Trial(iter, totals, included, outcome);
      all := trials + [trial];
      OwnPackage(m, iter);
      ProgressNext(m, RulesOf(includable), start, trials, included, failed, trial, inBlock, failed');
      WalkedNext(m, from, mi, included, table, trials, trial, inBlock, result);
      GivesUpLast(m, RulesOf(includable), trials, trial);
      if GivesUp(m, RulesOf(includable), all, |all|) {
        SelectedFull(m, RulesOf(includable), start, all, inBlock);
      }
    }

    /** Looks at the next candidate; `ended` when it pays too little, or when the selection gives up. */
    method Turn(m: Mempool, mi: int, includable: Tx -> bool, table: map<Tx, Totals>, failed: set<Tx>,
                consecutiveFailed: int, ghost first: seq<Tx>, ghost start: set<Tx>, ghost trials: seq<Trial>)
      returns (ended: bool, mi': int, result: map<Tx, Totals>, failed': set<Tx>, failures: int, selected: nat,
               updated: nat, ghost all: seq<Trial>, ghost stop: Stop)
      requires ValidMempool(m) && Going(m, includable, first, start, mi, table, failed, trials)
      requires 0 <= mi <= |m.order| && (mi < |m.order| || table != map[])
      requires mi < |m.order| ==> !Skip(m.order[mi], table, failed)
      requires consecutiveFailed == Failures(trials)
      modifies this
      ensures BlockOk(m) && WithinLimits() && first <= block && AllMeet(block[|first|..], includable)
      ensures Packages(all) == Packages(trials) + selected && Updates(m, all) == Updates(m, trials) + updated
      ensures ended ==> Selected(m, RulesOf(includable), start, all, inBlock, stop)
      ensures !ended ==>
        && mi <= mi' <= |m.order| && failures == Failures(all)
        && Going(m, includable, first, start, mi', result, failed', all)
        && (m.txs - inBlock < m.txs - old(inBlock) ||
            (inBlock == old(inBlock) && |m.order| - mi' + |result| < |m.order| - mi + |table|))
    {
      hide ValidMempool, BlockOk, WithinLimits, TableOk, TableExact, Covers, Exactly, Going, Failures, Packages,
        Selected, Sum, AllMeet, Updates;
      GoingTable(m, includable, first, start, mi, table, failed, trials);
      var usingModified, iter, totals := Choose(m, mi, table, failed);
      mi' := if usingModified then mi else mi + 1;
      result, failed', failures, selected, updated, all := table, failed, consecutiveFailed, 0, 0, trials;
      if totals.fees < minFee(totals.size) {
        GoingBelow(m, includable, first, start, mi, table, failed, trials, iter, totals);
        ended, stop := true, BelowMinimum(iter, totals);
        return;
      }
      var outcome;
      outcome, updated, result, failed', all :=
        RunTrial(m, mi, mi', iter, totals, usingModified, includable, table, failed, first, start, trials);
      ended, stop := false, GaveUp;
      if outcome == Added {
        failures, selected := 0, 1;
        assert iter in m.txs - old(inBlock) && iter !in m.txs - inBlock;
      } else if outcome == TooBig {
        failures := consecutiveFailed + 1;
        ended := failures > MAX_CONSECUTIVE_FAILURES && blockWeight > maxWeight - 4000;
      }
    }

    /**
     * Package selection. The side table and the mempool are walked in any
     * order of preference (the comparator by ancestor fee rate is not modelled),
     * and the block that results is well ordered and within the limits.
     */
    method AddPackageTxs(m: Mempool, includable: Tx -> bool)
      returns (packagesSelected: nat, descendantsUpdated: nat, ghost trials: seq<Trial>, ghost stop: Stop)
      requires ValidMempool(m) && BlockOk(m) && WithinLimits()
      modifies this
      ensures BlockOk(m) && WithinLimits() && old(block) <= block && AllMeet(block[|old(block)|..], includable)
      ensures Selected(m, RulesOf(includable), old(inBlock), trials, inBlock, stop)
      ensures packagesSelected == Packages(trials) && descendantsUpdated == Updates(m, trials)
    {
      hide ValidMempool, BlockOk, WithinLimits, Going, Failures, Packages, Selected, Sum, AllMeet, Updates;
      packagesSelected, descendantsUpdated := 0, 0;
      ghost var first, start := block, inBlock;
      trials := [];
      var failed: set<Tx> := {};
      var n, table := AddedSoFar(m, includable);
      var mi, consecutiveFailed, selected, ended := 0, 0, 0, false;
      while mi < |m.order| || table != map[]
        invariant 0 <= mi <= |m.order| && Going(m, includable, first, start, mi, table, failed, trials)
        invariant consecutiveFailed == Failures(trials) && packagesSelected == Packages(trials)
        invariant descendantsUpdated == Updates(m, trials)
        decreases m.txs - inBlock, |m.order| - mi + |table|
      {
        if mi < |m.order| && Skip(m.order[mi], table, failed) {
          GoingSkip(m, includable, first, start, mi, table, failed, trials);
          mi := mi + 1;
          continue;
        }
        ended, mi, table, failed, consecutiveFailed, selected, n, trials, stop :=
          Turn(m, mi, includable, table, failed, consecutiveFailed, first, start, trials);
        packagesSelected := packagesSelected + selected;
        descendantsUpdated := descendantsUpdated + n;
        if ended {
          return;
        }
      }
      GoingEnds(m, includable, first, start, failed, trials);
      stop := NothingLeft;
    }

    lemma GoingTable(m: Mempool, includable: Tx -> bool, first: seq<Tx>, start: set<Tx>, mi: int,
                     table: map<Tx, Totals>, failed: set<Tx>, trials: seq<Trial>)
      requires Going(m, includable, first, start, mi, table, failed, trials)
      ensures TableOk(m, table, inBlock) && TableExact(m, table, inBlock, failed)
    {
    }

    lemma GoingBelow(m: Mempool, includable: Tx -> bool, first: seq<Tx>, start: set<Tx>, mi: int,
                     table: map<Tx, Totals>, failed: set<Tx>, trials: seq<Trial>, iter: Tx, totals: Totals)
      requires Going(m, includable, first, start, mi, table, failed, trials) && iter in m.txs && iter !in inBlock
      requires totals.fees < minFee(totals.size) && (iter !in failed ==> Exactly(m, totals, iter, inBlock))
      ensures BlockOk(m) && WithinLimits() && first <= block && AllMeet(block[|first|..], includable)
      ensures Selected(m, RulesOf(includable), start, trials, inBlock, BelowMinimum(iter, totals))
    {
      hide BlockOk, WithinLimits, TableOk, TableExact, AllMeet, Walked, Progress, Exactly, Selected;
      SelectedBelow(m, RulesOf(includable), start, trials, inBlock, failed, iter, totals);
    }

    lemma GoingEnds(m: Mempool, includable: Tx -> bool, first: seq<Tx>, start: set<Tx>, failed: set<Tx>,
                    trials: seq<Trial>)
      requires Going(m, includable, first, start, |m.order|, map[], failed, trials)
      ensures BlockOk(m) && WithinLimits() && first <= block && AllMeet(block[|first|..], includable)
      ensures Selected(m, RulesOf(includable), start, trials, inBlock, NothingLeft)
    {
      hide BlockOk, WithinLimits, TableOk, TableExact, AllMeet, Walked, Progress, Selected;
      SelectedAll(m, RulesOf(includable), start, trials, inBlock, failed);
    }

    /** The side table at the start. */
    method AddedSoFar(m: Mempool, ghost includable: Tx -> bool) returns (updated: nat, table: map<Tx, Totals>)
      requires ValidMempool(m) && BlockOk(m) && WithinLimits()
      ensures Going(m, includable, block, inBlock, 0, table, {}, [])
      ensures Failures([]) == 0 && Packages([]) == 0 && Updates(m, []) == 0
    {
      hide ValidMempool, Sum, FeeTotal, Updated, TableOk, TableExact, Progress, Walked;
      NoTable(m);
      updated, table := UpdatePackagesForAdded(m, inBlock, map[]);
      OrderedIsClosed(m, []);
      var none: map<Tx, Totals> := map[];
      assert {} + inBlock == inBlock && none - inBlock == none && Elements([]) == {};
      UpdatedOk(m, inBlock, map[], table, {});
      UpdatedExact(m, inBlock, map[], table, {}, {});
      ProgressNone(m, RulesOf(includable), inBlock, table);
    }

    /** The part of `CreateNewBlock` that fills the block. */
    method Assemble(m: Mempool, includable: Tx -> bool) returns (ghost trials: seq<Trial>, ghost stop: Stop)
      requires ValidMempool(m) && 4000 <= maxWeight
      modifies this
      ensures WellOrdered(m, block) && inBlock == Elements(block) && blockTx == |block|
      ensures forall t :: t in block ==> includable(t)
      ensures 4000 + Sum(m.weight, Elements(block)) == blockWeight <= maxWeight
      ensures 400 + Sum(m.sigOps, Elements(block)) == blockSigOps < MAX_BLOCK_SIGOPS_COST
      ensures fees == FeeTotal(m, block)
      ensures Selected(m, RulesOf(includable), {}, trials, inBlock, stop)
      ensures AllPass(m, RulesOf(includable)) ==> inBlock == m.txs
    {
      hide ValidMempool, Sum, FeeTotal, WellOrdered, Selected, AllPass;
      ResetBlock(m);
      var selected, updated;
      selected, updated, trials, stop := AddPackageTxs(m, includable);
      assert block[0..] == block;
      if AllPass(m, RulesOf(includable)) {
        PassingIsComplete(m, RulesOf(includable), trials, inBlock, stop);
      }
    }
  }

  lemma EraseAll(m: Mempool, table: map<Tx, Totals>, included: set<Tx>, package: set<Tx>)
    requires TableOk(m, table, included)
    ensures TableOk(m, table - package, included) && (table - package).Keys !! package
    ensures table.Keys <= m.txs && (table - package).Keys <= m.txs
  {
    hide Covers;
  }

  lemma UpdatedKeeps(m: Mempool, added: set<Tx>, table: map<Tx, Totals>, result: map<Tx, Totals>)
    requires Updated(m, added, table, result)
    ensures forall t :: t in table ==> t in result
  {
    hide ReducedBy, Touched;
  }

  lemma NoTable(m: Mempool)
    ensures TableOk(m, map[], {}) && TableExact(m, map[], {}, {}) && WellOrdered(m, [])
  {
    hide Exactly, Covers;
    forall t | t in m.txs ensures Package(m, t) * {} == {} {}
  }

  lemma OwnPackage(m: Mempool, t: Tx)
    ensures t in Package(m, t)
  {
  }
}
