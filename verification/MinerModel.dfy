/**
 * Package selection on values: the mempool as a graph, the side table with the
 * totals of packages that are partly in the block, and the trials of a run.
 */
module MinerModel {
  import opened Common

  const WITNESS_SCALE_FACTOR: int := 4
  const MAX_BLOCK_SIGOPS_COST: int := 200000
  const MAX_CONSECUTIVE_FAILURES: int := 1000

  /** A mempool entry. */
  type Tx = nat

  /** Sizes, signature operations and fees of a transaction with its ancestors. */
  datatype Totals = Totals(size: int, fees: int, sigOps: int)

  /**
   * The mempool as the assembler sees it: `ancestors` are the proper in-mempool
   * ancestors, `order` is the index by ancestor score.
   */
  datatype Mempool = Mempool(
    txs: set<Tx>,
    ancestors: Tx -> set<Tx>,
    size: Tx -> nat,
    weight: Tx -> nat,
    sigOps: Tx -> nat,
    fee: Tx -> int,
    modifiedFee: Tx -> int,
    withAncestors: Tx -> Totals,
    countWithAncestors: Tx -> nat,
    hash: Tx -> nat,
    order: seq<Tx>)

  lemma {:induction false} WeightFromSize(weight: Tx -> nat, size: Tx -> nat, s: set<Tx>)
    requires forall x :: x in s ==> weight(x) <= WITNESS_SCALE_FACTOR * size(x)
    ensures Sum(weight, s) <= WITNESS_SCALE_FACTOR * Sum(size, s)
    decreases s
  {
    if s != {} {
      NonEmpty(s);
      var x :| x in s;
      SumRemove(weight, s, x);
      SumRemove(size, s, x);
      WeightFromSize(weight, size, s - {x});
    }
  }

  /** A transaction with its ancestors. */
  function Package(m: Mempool, t: Tx): set<Tx> { m.ancestors(t) + {t} }

  function Descendants(m: Mempool, t: Tx): set<Tx> {
    set u | u in m.txs && t in Package(m, u)
  }

  /** A finite acyclic dependency graph with exact ancestor totals. */
  ghost predicate ValidMempool(m: Mempool) {
    && (forall t :: t in m.txs ==> m.ancestors(t) <= m.txs && t !in m.ancestors(t))
    && (forall t, a :: t in m.txs && a in m.ancestors(t) ==> m.ancestors(a) <= m.ancestors(t))
    && (forall t :: t in m.txs ==>
          && m.withAncestors(t).size == Sum(m.size, Package(m, t))
          && m.withAncestors(t).sigOps == Sum(m.sigOps, Package(m, t))
          && m.withAncestors(t).fees == SumInt(m.modifiedFee, Package(m, t))
          && m.countWithAncestors(t) == |Package(m, t)|)
    && (forall t :: t in m.txs ==> m.weight(t) <= WITNESS_SCALE_FACTOR * m.size(t))
    && (forall t :: t in m.order ==> t in m.txs)
  }

  /** Ancestors come strictly before descendants in ancestor count. */
  lemma AncestorCount(m: Mempool, a: Tx, t: Tx)
    requires ValidMempool(m) && t in m.txs && a in m.ancestors(t)
    ensures m.countWithAncestors(a) < m.countWithAncestors(t)
  {
    assert a in m.txs && m.ancestors(a) <= m.ancestors(t) && t !in m.ancestors(t);
    ProperSubsetSize(Package(m, a), Package(m, t), t);
  }

  /** With every transaction, its ancestors. */
  ghost predicate Closed(m: Mempool, s: set<Tx>) {
    forall t :: t in s ==> t in m.txs && m.ancestors(t) <= s
  }

  /** A descendant of a transaction outside a closed set is outside, too. */
  lemma DescendantOutside(m: Mempool, it: Tx, desc: Tx, s: set<Tx>)
    requires Closed(m, s) && it !in s && desc in Descendants(m, it)
    ensures desc !in s && desc in m.txs
  {
  }

  // Totals of what is still missing of a package.

  /** No less than what is missing once `included` is in the block. */
  ghost predicate Covers(m: Mempool, totals: Totals, t: Tx, included: set<Tx>) {
    && totals.size >= Sum(m.size, Package(m, t) - included)
    && totals.sigOps >= Sum(m.sigOps, Package(m, t) - included)
  }

  /**
   * Just what is missing. Of the fees, those of the included part are taken off, for one transaction
   * the fee with its priority and for the others the plain fee.
   */
  ghost predicate Exactly(m: Mempool, totals: Totals, t: Tx, included: set<Tx>) {
    && totals.size == Sum(m.size, Package(m, t) - included)
    && totals.sigOps == Sum(m.sigOps, Package(m, t) - included)
    && FeesAre(m, totals.fees, m.withAncestors(t).fees, Package(m, t) * included)
  }

  ghost predicate FeesAre(m: Mempool, fees: int, all: int, gone: set<Tx>) {
    if gone == {} then fees == all
    else exists first :: first in gone && fees == all - SumInt(m.fee, gone) + m.fee(first) - m.modifiedFee(first)
  }

  /**
   * The fees of an entry are those of what is missing of its package if and only if priorities change
   * nothing about what was taken off as a plain fee: all of the included part but one transaction.
   */
  lemma FeesExactIff(m: Mempool, t: Tx, included: set<Tx>, fees: int, first: Tx)
    requires ValidMempool(m) && t in m.txs && first in Package(m, t) * included
    requires var gone := Package(m, t) * included;
      fees == m.withAncestors(t).fees - SumInt(m.fee, gone) + m.fee(first) - m.modifiedFee(first)
    ensures var rest := Package(m, t) * included - {first};
      fees == SumInt(m.modifiedFee, Package(m, t) - included) <==> SumInt(m.modifiedFee, rest) == SumInt(m.fee, rest)
  {
    hide ValidMempool, SumInt, Package;
    var gone, missing := Package(m, t) * included, Package(m, t) - included;
    CachedFees(m, t);
    assert Package(m, t) == missing + gone;
    SumIntUnion(m.modifiedFee, missing, gone);
    SumIntRemove(m.modifiedFee, gone, first);
    SumIntRemove(m.fee, gone, first);
  }

  lemma CachedFees(m: Mempool, t: Tx)
    requires ValidMempool(m) && t in m.txs
    ensures m.withAncestors(t).fees == SumInt(m.modifiedFee, Package(m, t))
  {
    hide Sum, SumInt;
  }

  lemma FullTotalsCover(m: Mempool, t: Tx, included: set<Tx>)
    requires ValidMempool(m) && t in m.txs
    ensures Covers(m, m.withAncestors(t), t, included)
    ensures Package(m, t) * included == {} ==> Exactly(m, m.withAncestors(t), t, included)
  {
    SumMonotone(m.size, Package(m, t) - included, Package(m, t));
    SumMonotone(m.sigOps, Package(m, t) - included, Package(m, t));
    if Package(m, t) * included == {} {
      assert Package(m, t) - included == Package(m, t);
    }
  }

  /** `update_for_parent_inclusion`, and the same subtraction on a new entry with the modified fee. */
  function LessParent(m: Mempool, totals: Totals, fee: int, parent: Tx): Totals {
    Totals(totals.size - m.size(parent), totals.fees - fee, totals.sigOps - m.sigOps(parent))
  }

  // What an update does to the side table.

  function Entry(m: Mempool, table: map<Tx, Totals>, t: Tx): Totals {
    if t in table then table[t] else m.withAncestors(t)
  }

  /** The totals of `t` less all of `s`, which is part of its package. */
  ghost predicate ReducedBy(m: Mempool, table: map<Tx, Totals>, t: Tx, s: set<Tx>, totals: Totals) {
    var was := Entry(m, table, t);
    && totals.size == was.size - Sum(m.size, s)
    && totals.sigOps == was.sigOps - Sum(m.sigOps, s)
    && (if t in table then totals.fees == was.fees - SumInt(m.fee, s) else FeesAre(m, totals.fees, was.fees, s))
  }

  lemma ReducedNone(m: Mempool, table: map<Tx, Totals>, t: Tx)
    ensures ReducedBy(m, table, t, {}, Entry(m, table, t))
  {
  }

  lemma ReducedMore(m: Mempool, table: map<Tx, Totals>, t: Tx, s: set<Tx>, totals: Totals, it: Tx)
    requires ReducedBy(m, table, t, s, totals) && it !in s
    ensures var fee := if t in table || s != {} then m.fee(it) else m.modifiedFee(it);
      ReducedBy(m, table, t, s + {it}, LessParent(m, totals, fee, it))
  {
    SumAdd(m.size, s, it);
    SumAdd(m.sigOps, s, it);
    SumIntAdd(m.fee, s, it);
    if t !in table && s != {} {
      var first :| first in s &&
        totals.fees == m.withAncestors(t).fees - SumInt(m.fee, s) + m.fee(first) - m.modifiedFee(first);
      assert first in s + {it};
    }
  }

  /**
   * The side table after an update for `added`: exactly its old entries and the descendants of what was
   * added are in it, and each has lost exactly its ancestors among what was added.
   */
  ghost predicate Updated(m: Mempool, added: set<Tx>, table: map<Tx, Totals>, result: map<Tx, Totals>) {
    UpdatedFor(m, added, table, added, result)
  }

  /** The same once the part `seen` of it is dealt with. */
  ghost predicate UpdatedFor(m: Mempool, added: set<Tx>, table: map<Tx, Totals>, seen: set<Tx>,
                             result: map<Tx, Totals>)
  {
    && (forall t :: t in result <==> t in table || Touched(m, added, seen, t))
    && (forall t :: t in result ==> ReducedBy(m, table, t, Package(m, t) * seen, result[t]))
  }

  predicate Touched(m: Mempool, added: set<Tx>, seen: set<Tx>, t: Tx) {
    t in m.txs && t !in added && Package(m, t) * seen != {}
  }

  /** What of `added` the entry of `t` has lost when `seen` is dealt with, and `it` for all but those in `todo`. */
  function Lost(m: Mempool, seen: set<Tx>, it: Tx, todo: set<Tx>, t: Tx): set<Tx> {
    Package(m, t) * (if t in todo then seen else seen + {it})
  }

  /** In the middle of an update. */
  ghost predicate Updating(m: Mempool, added: set<Tx>, table: map<Tx, Totals>, seen: set<Tx>, it: Tx, todo: set<Tx>,
                           result: map<Tx, Totals>)
  {
    && (forall t :: t in result <==> t in table || (t in m.txs && t !in added && Lost(m, seen, it, todo, t) != {}))
    && (forall t :: t in result ==> ReducedBy(m, table, t, Lost(m, seen, it, todo, t), result[t]))
  }

  lemma UpdateStart(m: Mempool, added: set<Tx>, table: map<Tx, Totals>, seen: set<Tx>, it: Tx, result: map<Tx, Totals>)
    requires UpdatedFor(m, added, table, seen, result) && table.Keys <= m.txs
    ensures Updating(m, added, table, seen, it, Descendants(m, it), result)
  {
    hide ReducedBy;
    forall t | t in m.txs ensures Lost(m, seen, it, Descendants(m, it), t) == Package(m, t) * seen {
    }
  }

  lemma UpdateEnd(m: Mempool, added: set<Tx>, table: map<Tx, Totals>, seen: set<Tx>, it: Tx, result: map<Tx, Totals>)
    requires Updating(m, added, table, seen, it, {}, result)
    ensures UpdatedFor(m, added, table, seen + {it}, result)
  {
    hide ReducedBy;
  }

  lemma UpdateStep(m: Mempool, added: set<Tx>, table: map<Tx, Totals>, seen: set<Tx>, it: Tx, todo: set<Tx>,
                   result: map<Tx, Totals>, desc: Tx)
    requires Updating(m, added, table, seen, it, todo, result) && it !in seen && it in added
    requires desc in todo && desc in Descendants(m, it) && desc !in added
    ensures var fee := if desc in result then m.fee(it) else m.modifiedFee(it);
      Updating(m, added, table, seen, it, todo - {desc},
               result[desc := LessParent(m, Entry(m, result, desc), fee, it)])
  {
    hide ReducedBy, LessParent;
    var before, after := Lost(m, seen, it, todo, desc), Lost(m, seen, it, todo - {desc}, desc);
    assert after == before + {it};
    if desc !in result {
      ReducedNone(m, table, desc);
    }
    ReducedMore(m, table, desc, before, Entry(m, result, desc), it);
    forall t | t != desc ensures Lost(m, seen, it, todo - {desc}, t) == Lost(m, seen, it, todo, t) {
    }
  }

  /** One that was itself added has no entry. */
  lemma UpdateSkip(m: Mempool, added: set<Tx>, table: map<Tx, Totals>, seen: set<Tx>, it: Tx, todo: set<Tx>,
                   result: map<Tx, Totals>, desc: Tx)
    requires Updating(m, added, table, seen, it, todo, result) && desc in added && table.Keys !! added
    ensures Updating(m, added, table, seen, it, todo - {desc}, result)
  {
    hide ReducedBy;
    forall t | t != desc ensures Lost(m, seen, it, todo - {desc}, t) == Lost(m, seen, it, todo, t) {
    }
  }

  // The side table beside the block.

  /** No entry of the side table is in `included`, and none claims less than is still to come. */
  ghost predicate TableOk(m: Mempool, table: map<Tx, Totals>, included: set<Tx>) {
    forall t :: t in table ==> t in m.txs && t !in included && Covers(m, table[t], t, included)
  }

  /**
   * The transactions that are partly in the block are in the side table, with exact totals, unless they
   * have failed; and so are no others.
   */
  ghost predicate TableExact(m: Mempool, table: map<Tx, Totals>, included: set<Tx>, failed: set<Tx>) {
    && (forall t :: t in table && t !in failed ==>
          Package(m, t) * included != {} && Exactly(m, table[t], t, included))
    && (forall t :: t in m.txs && t !in included && t !in failed && Package(m, t) * included != {} ==> t in table)
  }

  lemma TableErase(m: Mempool, table: map<Tx, Totals>, included: set<Tx>, t: Tx)
    requires TableOk(m, table, included)
    ensures TableOk(m, table - {t}, included)
  {
  }

  lemma ExactErase(m: Mempool, table: map<Tx, Totals>, included: set<Tx>, failed: set<Tx>, t: Tx)
    requires TableExact(m, table, included, failed)
    ensures TableExact(m, table - {t}, included, failed + {t})
  {
    hide Exactly;
  }

  lemma SplitPackage(m: Mempool, f: Tx -> nat, t: Tx, before: set<Tx>, added: set<Tx>)
    requires before !! added
    ensures Sum(f, Package(m, t) - before) == Sum(f, Package(m, t) - (before + added)) + Sum(f, Package(m, t) * added)
  {
    SumUnion(f, Package(m, t) - (before + added), Package(m, t) * added);
    assert Package(m, t) - before == (Package(m, t) - (before + added)) + Package(m, t) * added;
  }

  lemma ReducedCovers(m: Mempool, table: map<Tx, Totals>, t: Tx, before: set<Tx>, added: set<Tx>, totals: Totals)
    requires before !! added && Covers(m, Entry(m, table, t), t, before)
    requires ReducedBy(m, table, t, Package(m, t) * added, totals)
    ensures Covers(m, totals, t, before + added)
  {
    hide Sum, Package;
    SplitPackage(m, m.size, t, before, added);
    SplitPackage(m, m.sigOps, t, before, added);
  }

  lemma ReducedExact(m: Mempool, table: map<Tx, Totals>, t: Tx, before: set<Tx>, added: set<Tx>, totals: Totals)
    requires before !! added && Exactly(m, Entry(m, table, t), t, before)
    requires ReducedBy(m, table, t, Package(m, t) * added, totals)
    requires t in table <==> Package(m, t) * before != {}
    ensures Exactly(m, totals, t, before + added)
  {
    hide Sum, SumInt, Package;
    SplitPackage(m, m.size, t, before, added);
    SplitPackage(m, m.sigOps, t, before, added);
    var p := Package(m, t);
    assert p * (before + added) == p * before + p * added;
    if t in table {
      SumIntUnion(m.fee, p * before, p * added);
      var all := m.withAncestors(t).fees;
      var first :| first in p * before &&
        table[t].fees == all - SumInt(m.fee, p * before) + m.fee(first) - m.modifiedFee(first);
      assert first in p * (before + added);
    } else {
      assert p * before + p * added == p * added;
    }
  }

  lemma UpdatedOk(m: Mempool, added: set<Tx>, table: map<Tx, Totals>, result: map<Tx, Totals>, before: set<Tx>)
    requires ValidMempool(m) && Closed(m, before) && before !! added && Updated(m, added, table, result)
    requires TableOk(m, table, before) && table.Keys !! added
    ensures TableOk(m, result, before + added)
  {
    forall t | t in result
      ensures t in m.txs && t !in before + added && Covers(m, result[t], t, before + added)
    {
      hide ReducedBy, Covers;
      if t !in table {
        assert Touched(m, added, added, t);
        var it :| it in Package(m, t) * added;
        DescendantOutside(m, it, t, before);
      }
      FullTotalsCover(m, t, before);
      ReducedCovers(m, table, t, before, added, result[t]);
    }
  }

  lemma UpdatedExact(m: Mempool, added: set<Tx>, table: map<Tx, Totals>, result: map<Tx, Totals>, before: set<Tx>,
                     failed: set<Tx>)
    requires ValidMempool(m) && before !! added && Updated(m, added, table - added, result)
    requires TableExact(m, table, before, failed) && TableOk(m, table, before) && Closed(m, before)
    ensures TableExact(m, result, before + added, failed)
  {
    hide ReducedBy, Exactly, ValidMempool, Covers;
    forall t | t in result && t !in failed
      ensures Package(m, t) * (before + added) != {} && Exactly(m, result[t], t, before + added)
    {
      UpdatedEntry(m, added, table, result, before, failed, t);
    }
    forall t | t in m.txs && t !in before + added && t !in failed && Package(m, t) * (before + added) != {}
      ensures t in result
    {
      assert Package(m, t) * (before + added) == Package(m, t) * before + Package(m, t) * added;
      assert Package(m, t) * before != {} ==> t in table - added;
      assert Package(m, t) * added != {} ==> Touched(m, added, added, t);
    }
  }

  lemma UpdatedEntry(m: Mempool, added: set<Tx>, table: map<Tx, Totals>, result: map<Tx, Totals>, before: set<Tx>,
                     failed: set<Tx>, t: Tx)
    requires ValidMempool(m) && before !! added && Updated(m, added, table - added, result)
    requires t in result && t !in failed
    requires TableExact(m, table, before, failed) && TableOk(m, table, before) && Closed(m, before)
    ensures Package(m, t) * (before + added) != {} && Exactly(m, result[t], t, before + added)
  {
    hide ReducedBy, Exactly, ValidMempool, Covers;
    var rest := table - added;
    if t !in rest {
      assert Touched(m, added, added, t);
      var it :| it in Package(m, t) * added;
      assert it in Package(m, t) * (before + added);
      DescendantOutside(m, it, t, before);
      assert Package(m, t) * before == {};
      FullTotalsCover(m, t, before);
    } else {
      var it :| it in Package(m, t) * before;
      assert it in Package(m, t) * (before + added);
    }
    ReducedExact(m, rest, t, before, added, result[t]);
  }

  /** Total fee of a list of transactions. */
  function FeeTotal(m: Mempool, txs: seq<Tx>): int {
    if txs == [] then 0 else FeeTotal(m, txs[..|txs| - 1]) + m.fee(txs[|txs| - 1])
  }

  function Elements(txs: seq<Tx>): set<Tx> { set t | t in txs }

  /** No transaction twice, and every transaction after its ancestors. */
  ghost predicate WellOrdered(m: Mempool, txs: seq<Tx>) {
    && (forall i, j :: 0 <= i < j < |txs| ==> txs[i] != txs[j])
    && (forall i :: 0 <= i < |txs| ==> txs[i] in m.txs && m.ancestors(txs[i]) <= Elements(txs[..i]))
  }

  lemma AppendOrdered(m: Mempool, txs: seq<Tx>, t: Tx)
    requires WellOrdered(m, txs) && t in m.txs && t !in txs && m.ancestors(t) <= Elements(txs)
    ensures WellOrdered(m, txs + [t]) && Elements(txs + [t]) == Elements(txs) + {t}
  {
    var r := txs + [t];
    forall i | 0 <= i < |r| ensures r[i] in m.txs && m.ancestors(r[i]) <= Elements(r[..i]) {
      if i < |txs| {
        assert r[..i] == txs[..i];
      } else {
        assert r[..i] == txs;
      }
    }
  }

  lemma OrderedIsClosed(m: Mempool, txs: seq<Tx>)
    requires WellOrdered(m, txs)
    ensures Closed(m, Elements(txs))
  {
    forall t | t in Elements(txs) ensures t in m.txs && m.ancestors(t) <= Elements(txs) {
      var i :| 0 <= i < |txs| && txs[i] == t;
      assert Elements(txs[..i]) <= Elements(txs);
    }
  }

  /** Totals that cover a package bound its weight and signature operations. */
  lemma PackageFits(m: Mempool, t: Tx, included: set<Tx>, totals: Totals)
    requires ValidMempool(m) && t in m.txs && Covers(m, totals, t, included)
    ensures Sum(m.weight, Package(m, t) - included) <= WITNESS_SCALE_FACTOR * totals.size
    ensures Sum(m.sigOps, Package(m, t) - included) <= totals.sigOps
  {
    WeightFromSize(m.weight, m.size, Package(m, t) - included);
  }

  /** `CompareTxIterByAncestorCount`. */
  predicate Before(m: Mempool, a: Tx, b: Tx) {
    if m.countWithAncestors(a) != m.countWithAncestors(b) then m.countWithAncestors(a) < m.countWithAncestors(b)
    else m.hash(a) < m.hash(b)
  }

  lemma AncestorIsBefore(m: Mempool, a: Tx, t: Tx)
    requires ValidMempool(m) && t in m.txs && a in m.ancestors(t)
    ensures Before(m, a, t) && a != t
  {
    AncestorCount(m, a, t);
  }

  lemma ElementsAppend(txs: seq<Tx>, t: Tx)
    ensures Elements(txs + [t]) == Elements(txs) + {t}
  {
  }

  lemma PackageMember(m: Mempool, iter: Tx, t: Tx)
    requires ValidMempool(m) && iter in m.txs && t in Package(m, iter)
    ensures t in m.txs && m.ancestors(t) <= m.ancestors(iter)
  {
  }

  /** In a sorted package, everything a transaction needs is in the block or before it. */
  lemma SortedPackageOrder(m: Mempool, iter: Tx, block: set<Tx>, sorted: seq<Tx>, k: int)
    requires ValidMempool(m) && iter in m.txs && 0 <= k < |sorted|
    requires Elements(sorted) == Package(m, iter) - block
    requires forall i, j :: 0 <= i < j < |sorted| ==> !Before(m, sorted[j], sorted[i])
    ensures sorted[k] in m.txs && sorted[k] !in block
    ensures m.ancestors(sorted[k]) <= block + Elements(sorted[..k])
  {
    hide ValidMempool, Before;
    var t := sorted[k];
    assert t in Elements(sorted);
    PackageMember(m, iter, t);
    forall a | a in m.ancestors(t) && a !in block ensures a in Elements(sorted[..k]) {
      assert a in Elements(sorted);
      var j :| 0 <= j < |sorted| && sorted[j] == a;
      AncestorIsBefore(m, a, t);
      assert sorted[..k][j] == a;
    }
  }

  ghost predicate AllMeet(txs: seq<Tx>, includable: Tx -> bool) {
    forall t :: t in txs ==> includable(t)
  }

  lemma MeetMore(a: seq<Tx>, b: seq<Tx>, c: seq<Tx>, includable: Tx -> bool)
    requires a <= b && b <= c && AllMeet(b[|a|..], includable) && AllMeet(c[|b|..], includable)
    ensures AllMeet(c[|a|..], includable)
  {
    assert c[|a|..] == b[|a|..] + c[|b|..];
  }

  lemma KeysNonEmpty(table: map<Tx, Totals>)
    requires table != map[]
    ensures table.Keys != {}
  {
    assert table.Keys == {} ==> table == map[];
  }

  lemma ShrinkTable(table: map<Tx, Totals>, t: Tx)
    requires t in table
    ensures |table - {t}| == |table| - 1
  {
    assert (table - {t}).Keys == table.Keys - {t};
    assert |table| == |table.Keys| && |table - {t}| == |(table - {t}).Keys|;
  }

  lemma OrderInMempool(m: Mempool, i: int)
    requires ValidMempool(m) && 0 <= i < |m.order|
    ensures m.order[i] in m.txs
  {
  }

  // The trials of a run.

  datatype Outcome = Added | TooBig | NotFinal

  /** What decides about packages: the weight limit, the least fee for a size, and the test of a transaction. */
  datatype Rules = Rules(maxWeight: int, minFee: int -> int, includable: Tx -> bool)

  /** A package that paid enough to be looked at: its transaction, its totals and what the block held then. */
  datatype Trial = Trial(iter: Tx, totals: Totals, included: set<Tx>, outcome: Outcome)

  /** Why a selection ends. */
  datatype Stop = NothingLeft | BelowMinimum(iter: Tx, totals: Totals) | GaveUp

  ghost predicate Fits(m: Mempool, maxWeight: int, included: set<Tx>, totals: Totals) {
    && 4000 + Sum(m.weight, included) + WITNESS_SCALE_FACTOR * totals.size < maxWeight
    && 400 + Sum(m.sigOps, included) + totals.sigOps < MAX_BLOCK_SIGOPS_COST
  }

  /** A package is added exactly when its totals fit beside the block and all that is missing may be in a block. */
  ghost function Verdict(m: Mempool, rules: Rules, iter: Tx, totals: Totals, included: set<Tx>): Outcome {
    if !Fits(m, rules.maxWeight, included, totals) then TooBig
    else if exists t :: t in Package(m, iter) - included && !rules.includable(t) then NotFinal
    else Added
  }

  /** What the block holds before trial `k`. */
  function Reached(m: Mempool, start: set<Tx>, trials: seq<Trial>, k: nat): set<Tx>
    requires k <= |trials|
  {
    if k == 0 then start
    else
      var t := trials[k - 1];
      if t.outcome == Added then t.included + Package(m, t.iter) else t.included
  }

  predicate Considered(trials: seq<Trial>, iter: Tx) {
    exists k :: 0 <= k < |trials| && trials[k].iter == iter
  }

  predicate Rejected(trials: seq<Trial>, iter: Tx) {
    exists k :: 0 <= k < |trials| && trials[k].iter == iter && trials[k].outcome != Added
  }

  /** Trial `k` of a run: it paid, its totals were exact if it was the first of its package, and the rules decided. */
  ghost predicate TrialOk(m: Mempool, rules: Rules, start: set<Tx>, trials: seq<Trial>, k: nat)
    requires k < |trials|
  {
    var t := trials[k];
    && t.iter in m.txs && t.iter !in t.included && t.included == Reached(m, start, trials, k)
    && t.totals.fees >= rules.minFee(t.totals.size)
    && (!Considered(trials[..k], t.iter) ==> Exactly(m, t.totals, t.iter, t.included))
    && t.outcome == Verdict(m, rules, t.iter, t.totals, t.included)
  }

  /** How many packages in a row were too big, since the last one that was added. */
  function Failures(trials: seq<Trial>): nat {
    if trials == [] then 0
    else
      var n := |trials| - 1;
      match trials[n].outcome
      case Added => 0
      case TooBig => Failures(trials[..n]) + 1
      case NotFinal => Failures(trials[..n])
  }

  /** After the first `k` trials the block is almost full and too many packages in a row were too big. */
  ghost predicate GivesUp(m: Mempool, rules: Rules, trials: seq<Trial>, k: nat)
    requires k <= |trials|
  {
    && k > 0 && trials[k - 1].outcome == TooBig && Failures(trials[..k]) > MAX_CONSECUTIVE_FAILURES
    && 4000 + Sum(m.weight, trials[k - 1].included) > rules.maxWeight - 4000
  }

  /** A selection so far: every trial as specified, from what the block held at the start to what it holds now. */
  ghost predicate Selecting(m: Mempool, rules: Rules, start: set<Tx>, trials: seq<Trial>, included: set<Tx>) {
    && (forall k :: 0 <= k < |trials| ==> TrialOk(m, rules, start, trials, k))
    && included == Reached(m, start, trials, |trials|)
  }

  /** A selection that goes on; everything that failed was rejected. */
  ghost predicate Progress(m: Mempool, rules: Rules, start: set<Tx>, trials: seq<Trial>, included: set<Tx>,
                           failed: set<Tx>)
  {
    && Selecting(m, rules, start, trials, included)
    && (forall k :: 0 <= k <= |trials| ==> !GivesUp(m, rules, trials, k))
    && (forall t :: t in failed ==> Rejected(trials, t))
  }

  /** Of the first `mi` transactions of the mempool each is in the block or waits in the side table or was rejected. */
  ghost predicate Walked(m: Mempool, mi: int, included: set<Tx>, table: map<Tx, Totals>, trials: seq<Trial>) {
    && 0 <= mi <= |m.order|
    && forall i :: 0 <= i < mi ==> m.order[i] in included || m.order[i] in table || Rejected(trials, m.order[i])
  }

  /** A finished selection: it went on as long as it should, and stopped for one of three reasons. */
  ghost predicate Selected(m: Mempool, rules: Rules, start: set<Tx>, trials: seq<Trial>, included: set<Tx>, stop: Stop)
  {
    && Selecting(m, rules, start, trials, included)
    && (forall k :: 0 <= k < |trials| ==> !GivesUp(m, rules, trials, k))
    && match stop
       case NothingLeft =>
         && !GivesUp(m, rules, trials, |trials|)
         && forall t :: t in m.order ==> t in included || Rejected(trials, t)
       case BelowMinimum(iter, totals) =>
         && !GivesUp(m, rules, trials, |trials|)
         && iter in m.txs && iter !in included && totals.fees < rules.minFee(totals.size)
         && (!Considered(trials, iter) ==> Exactly(m, totals, iter, included))
       case GaveUp => GivesUp(m, rules, trials, |trials|)
  }

  function Packages(trials: seq<Trial>): nat {
    if trials == [] then 0
    else Packages(trials[..|trials| - 1]) + (if trials[|trials| - 1].outcome == Added then 1 else 0)
  }

  /** For a transaction, how many others that are not added descend from it. */
  function Pairs(m: Mempool, added: set<Tx>): Tx -> nat {
    (it: Tx) => |Descendants(m, it) - added|
  }

  /** How many entries of the side table a trial changed, each counted once for every ancestor that was added. */
  ghost function UpdatesOf(m: Mempool, t: Trial): nat {
    var package := Package(m, t.iter) - t.included;
    if t.outcome == Added then Sum(Pairs(m, package), package) else 0
  }

  ghost function Updates(m: Mempool, trials: seq<Trial>): nat {
    if trials == [] then 0 else Updates(m, trials[..|trials| - 1]) + UpdatesOf(m, trials[|trials| - 1])
  }

  lemma SelectingNext(m: Mempool, rules: Rules, start: set<Tx>, trials: seq<Trial>, included: set<Tx>, t: Trial)
    requires Selecting(m, rules, start, trials, included) && t.included == included
    requires t.iter in m.txs && t.iter !in included && t.totals.fees >= rules.minFee(t.totals.size)
    requires !Considered(trials, t.iter) ==> Exactly(m, t.totals, t.iter, included)
    requires t.outcome == Verdict(m, rules, t.iter, t.totals, included)
    ensures Selecting(m, rules, start, trials + [t],
                      if t.outcome == Added then included + Package(m, t.iter) else included)
  {
    hide Exactly, Verdict, Package, Considered;
    var more := trials + [t];
    forall k | 0 <= k < |more| ensures TrialOk(m, rules, start, more, k) {
      if k < |trials| {
        assert TrialOk(m, rules, start, trials, k);
        assert more[k] == trials[k] && more[..k] == trials[..k] && (k > 0 ==> more[k - 1] == trials[k - 1]);
      } else {
        assert more[..k] == trials && (k > 0 ==> more[k - 1] == trials[k - 1]);
      }
    }
  }

  lemma GivesUpPrefix(m: Mempool, rules: Rules, trials: seq<Trial>, t: Trial, k: nat)
    requires k <= |trials|
    ensures GivesUp(m, rules, trials + [t], k) <==> GivesUp(m, rules, trials, k)
  {
    hide Failures, Sum;
    assert (trials + [t])[..k] == trials[..k];
  }

  lemma GivesUpLast(m: Mempool, rules: Rules, trials: seq<Trial>, t: Trial)
    ensures Failures(trials + [t]) ==
      match t.outcome case Added => 0 case TooBig => Failures(trials) + 1 case NotFinal => Failures(trials)
    ensures Packages(trials + [t]) == Packages(trials) + (if t.outcome == Added then 1 else 0)
    ensures Updates(m, trials + [t]) == Updates(m, trials) + UpdatesOf(m, t)
    ensures GivesUp(m, rules, trials + [t], |trials| + 1) <==>
      && t.outcome == TooBig && Failures(trials) + 1 > MAX_CONSECUTIVE_FAILURES
      && 4000 + Sum(m.weight, t.included) > rules.maxWeight - 4000
  {
    hide Sum, UpdatesOf;
    assert (trials + [t])[..|trials|] == trials && (trials + [t])[..|trials| + 1] == trials + [t];
  }

  lemma ProgressNone(m: Mempool, rules: Rules, included: set<Tx>, table: map<Tx, Totals>)
    ensures Progress(m, rules, included, [], included, {}) && Walked(m, 0, included, table, [])
    ensures Failures([]) == 0 && Packages([]) == 0
  {
  }

  lemma ProgressNext(m: Mempool, rules: Rules, start: set<Tx>, trials: seq<Trial>, included: set<Tx>, failed: set<Tx>,
                     t: Trial, included': set<Tx>, failed': set<Tx>)
    requires Progress(m, rules, start, trials, included, failed) && t.included == included
    requires t.iter in m.txs && t.iter !in included && t.totals.fees >= rules.minFee(t.totals.size)
    requires t.iter !in failed ==> Exactly(m, t.totals, t.iter, included)
    requires t.outcome == Verdict(m, rules, t.iter, t.totals, included)
    requires included' == if t.outcome == Added then included + Package(m, t.iter) else included
    requires failed' <= if t.outcome == Added then failed else failed + {t.iter}
    ensures Selecting(m, rules, start, trials + [t], included')
    ensures forall k :: 0 <= k <= |trials| ==> !GivesUp(m, rules, trials + [t], k)
    ensures !GivesUp(m, rules, trials + [t], |trials| + 1) ==>
      Progress(m, rules, start, trials + [t], included', failed')
  {
    hide Exactly, Verdict, Package, GivesUp, Selecting, Considered, Rejected;
    if t.iter in failed {
      RejectedWas(trials, t.iter);
    }
    SelectingNext(m, rules, start, trials, included, t);
    forall k | 0 <= k <= |trials| ensures !GivesUp(m, rules, trials + [t], k) {
      GivesUpPrefix(m, rules, trials, t, k);
    }
    forall u | u in failed' ensures Rejected(trials + [t], u) {
      ConsideredMore(trials, t, u);
    }
  }

  lemma RejectedWas(trials: seq<Trial>, iter: Tx)
    requires Rejected(trials, iter)
    ensures Considered(trials, iter)
  {
  }

  lemma WalkedSkip(m: Mempool, rules: Rules, start: set<Tx>, trials: seq<Trial>, included: set<Tx>, failed: set<Tx>,
                   mi: int, table: map<Tx, Totals>)
    requires Progress(m, rules, start, trials, included, failed) && Walked(m, mi, included, table, trials)
    requires mi < |m.order| && (m.order[mi] in table || m.order[mi] in included || m.order[mi] in failed)
    ensures Walked(m, mi + 1, included, table, trials)
  {
    hide Selecting, GivesUp, Rejected;
  }

  lemma WalkedNext(m: Mempool, from: int, mi: int, included: set<Tx>, table: map<Tx, Totals>, trials: seq<Trial>,
                   t: Trial, included': set<Tx>, table': map<Tx, Totals>)
    requires Walked(m, from, included, table, trials) && included <= included'
    requires t.iter in included' || t.outcome != Added
    requires forall u :: u in table ==> u in table' || u in included' || (u == t.iter && t.outcome != Added)
    requires mi == from || (mi == from + 1 <= |m.order| && m.order[from] == t.iter)
    ensures Walked(m, mi, included', table', trials + [t])
  {
    hide Rejected, Considered;
    forall i | 0 <= i < mi
      ensures m.order[i] in included' || m.order[i] in table' || Rejected(trials + [t], m.order[i])
    {
      ConsideredMore(trials, t, m.order[i]);
    }
  }

  /** Nothing is left when the mempool is walked through and the side table is empty. */
  lemma SelectedAll(m: Mempool, rules: Rules, start: set<Tx>, trials: seq<Trial>, included: set<Tx>, failed: set<Tx>)
    requires Progress(m, rules, start, trials, included, failed) && Walked(m, |m.order|, included, map[], trials)
    ensures Selected(m, rules, start, trials, included, NothingLeft)
  {
    hide Selecting, GivesUp, Rejected;
  }

  lemma SelectedBelow(m: Mempool, rules: Rules, start: set<Tx>, trials: seq<Trial>, included: set<Tx>,
                      failed: set<Tx>, iter: Tx, totals: Totals)
    requires Progress(m, rules, start, trials, included, failed) && iter in m.txs && iter !in included
    requires totals.fees < rules.minFee(totals.size) && (iter !in failed ==> Exactly(m, totals, iter, included))
    ensures Selected(m, rules, start, trials, included, BelowMinimum(iter, totals))
  {
    hide Selecting, GivesUp, Rejected, Exactly, Considered;
    if iter in failed {
      RejectedWas(trials, iter);
    }
  }

  lemma SelectedFull(m: Mempool, rules: Rules, start: set<Tx>, trials: seq<Trial>, included: set<Tx>)
    requires Selecting(m, rules, start, trials, included) && GivesUp(m, rules, trials, |trials|)
    requires forall k :: 0 <= k < |trials| ==> !GivesUp(m, rules, trials, k)
    ensures Selected(m, rules, start, trials, included, GaveUp)
  {
    hide Selecting, GivesUp;
  }

  lemma ConsideredMore(trials: seq<Trial>, t: Trial, u: Tx)
    ensures Considered(trials + [t], u) <==> Considered(trials, u) || t.iter == u
    ensures Rejected(trials + [t], u) <==> Rejected(trials, u) || (t.iter == u && t.outcome != Added)
  {
    var more := trials + [t];
    assert more[|trials|] == t && forall k :: 0 <= k < |trials| ==> more[k] == trials[k];
  }

  // When everything is in the block.

  /** Every package that can come up pays, fits even beside all others, and may be in a block. */
  ghost predicate AllPass(m: Mempool, rules: Rules) {
    && (forall t :: t in m.txs ==> t in m.order && rules.includable(t))
    && 4000 + WITNESS_SCALE_FACTOR * Sum(m.size, m.txs) < rules.maxWeight
    && 400 + Sum(m.sigOps, m.txs) < MAX_BLOCK_SIGOPS_COST
    && (forall t, included, totals :: t in m.txs && Exactly(m, totals, t, included) ==>
          totals.fees >= rules.minFee(totals.size))
  }

  /** What is missing fits beside the block if everything does. */
  lemma PassingFits(m: Mempool, rules: Rules, missing: set<Tx>, totals: Totals, included: set<Tx>)
    requires ValidMempool(m) && AllPass(m, rules) && included <= m.txs && missing <= m.txs && missing !! included
    requires totals.size == Sum(m.size, missing) && totals.sigOps == Sum(m.sigOps, missing)
    ensures Fits(m, rules.maxWeight, included, totals)
  {
    assert forall t :: t in included ==> m.weight(t) <= WITNESS_SCALE_FACTOR * m.size(t);
    hide ValidMempool, Exactly, Sum;
    WeightFromSize(m.weight, m.size, included);
    SumUnion(m.size, included, missing);
    SumMonotone(m.size, included + missing, m.txs);
    SumUnion(m.sigOps, included, missing);
    SumMonotone(m.sigOps, included + missing, m.txs);
  }

  lemma PassingVerdict(m: Mempool, rules: Rules, iter: Tx, totals: Totals, included: set<Tx>)
    requires ValidMempool(m) && AllPass(m, rules) && iter in m.txs && included <= m.txs
    requires Exactly(m, totals, iter, included)
    ensures Verdict(m, rules, iter, totals, included) == Added
  {
    hide Sum, Fits, FeesAre;
    AncestorsIn(m, iter);
    PassingFits(m, rules, Package(m, iter) - included, totals, included);
  }

  /** Then no trial fails. */
  lemma {:induction false} PassingTrials(m: Mempool, rules: Rules, trials: seq<Trial>, k: nat)
    requires ValidMempool(m) && AllPass(m, rules) && k <= |trials|
    requires forall j :: 0 <= j < |trials| ==> TrialOk(m, rules, {}, trials, j)
    ensures Reached(m, {}, trials, k) <= m.txs
    ensures forall j :: 0 <= j < k ==> trials[j].outcome == Added && trials[j].iter in Reached(m, {}, trials, k)
  {
    hide AllPass, ValidMempool, Exactly, Verdict;
    if k > 0 {
      PassingTrials(m, rules, trials, k - 1);
      var t := trials[k - 1];
      assert TrialOk(m, rules, {}, trials, k - 1);
      assert !Considered(trials[..k - 1], t.iter);
      PassingVerdict(m, rules, t.iter, t.totals, t.included);
      AncestorsIn(m, t.iter);
    }
  }

  lemma AncestorsIn(m: Mempool, t: Tx)
    requires ValidMempool(m) && t in m.txs
    ensures Package(m, t) <= m.txs
  {
  }

  /** A mempool whose packages all pass is in the block entirely. */
  lemma PassingIsComplete(m: Mempool, rules: Rules, trials: seq<Trial>, included: set<Tx>, stop: Stop)
    requires ValidMempool(m) && AllPass(m, rules) && Selected(m, rules, {}, trials, included, stop)
    ensures included == m.txs && stop == NothingLeft
  {
    PassingTrials(m, rules, trials, |trials|);
    if stop.BelowMinimum? {
      PassingPays(m, rules, stop.iter, stop.totals, included);
    }
    assert forall t :: t in m.txs ==> t in m.order;
  }

  lemma PassingPays(m: Mempool, rules: Rules, iter: Tx, totals: Totals, included: set<Tx>)
    requires AllPass(m, rules) && iter in m.txs
    ensures Exactly(m, totals, iter, included) ==> totals.fees >= rules.minFee(totals.size)
  {
    hide Exactly;
  }
}
