/**
 * The block index: a tree of blocks linked to their predecessors and, through
 * skip pointers, to some further ancestor; and the active chain, a vector that
 * holds one branch of the tree.
 */
module Chain {
  import opened Arithmetic
  import opened SkipList

  // Blocks.

  class BlockIndex {
    const hash: int
    const pprev: BlockIndex?
    const height: nat
    var pskip: BlockIndex?

    constructor (hash: int, pprev: BlockIndex?)
      requires pprev != null ==> Linked(pprev)
      ensures Linked(this) && this.hash == hash && this.pprev == pprev && pskip == null
    {
      this.hash := hash;
      this.pprev := pprev;
      height := if pprev == null then 0 else pprev.height + 1;
      pskip := null;
    }

    /** One step of the walk back, from the ancestor at height `w` on the way to height `h`. */
    method StepBack(walk: BlockIndex, w: nat, h: nat) returns (next: BlockIndex, v: nat)
      requires Linked(this) && SkipsOk(this) && h < w <= height && walk == Ancestry(this)[w]
      ensures h <= v < w && next == Ancestry(this)[v]
      ensures SkipsSet(this) ==> v == Next(w, h)
    {
      hide Ancestry, Linked, GetSkipHeight;
      var skip, skipPrev := GetSkipHeight(w), GetSkipHeight(w - 1);
      AncestryPrefix(this, w);
      PrevInAncestry(walk);
      assert SkipOk(Ancestry(this)[w]);
      if walk.pskip != null && (skip == h || (skip > h && !(skipPrev < skip - 2 && skipPrev >= h))) {
        return walk.pskip, skip;
      }
      assert walk.pprev != null;
      return walk.pprev, w - 1;
    }

    /** The ancestor at a height, found by walking back or skipping. */
    method GetAncestor(h: int) returns (r: BlockIndex?, ghost steps: nat)
      requires Linked(this) && SkipsOk(this)
      ensures r == AncestorAt(this, h)
      ensures 0 <= h <= height && SkipsSet(this) ==> steps <= MaxSteps(height)
    {
      steps := 0;
      if h > height || h < 0 {
        return null, steps;
      }
      hide Ancestry, Linked, GetSkipHeight, Steps, MaxSteps, Next, SkipOk;
      StepsBound(height, h);
      AncestryAllocated(this);
      ghost var complete := SkipsSet(this);
      var walk, heightWalk := this, height;
      while heightWalk > h
        invariant h <= heightWalk <= height && walk == Ancestry(this)[heightWalk]
        invariant SkipsOk(this) && (complete ==> SkipsSet(this))
        invariant complete ==> steps + Steps(heightWalk, h) == Steps(height, h)
      {
        StepsNext(heightWalk, h);
        walk, heightWalk := StepBack(walk, heightWalk, h);
        steps := steps + 1;
      }
      return walk, steps;
    }

    /** Sets the skip pointer; the skip pointers of the predecessors must be in order. */
    method BuildSkip()
      requires Linked(this) && (pprev != null ==> SkipsOk(pprev))
      modifies this`pskip
      ensures pprev != null ==> SkipsOk(this) && pskip == Ancestry(this)[GetSkipHeight(height)]
      ensures pprev != null && old(SkipsSet(pprev)) ==> SkipsSet(this)
      ensures pprev == null ==> pskip == old(pskip)
    {
      if pprev != null {
        AncestryAllocated(pprev);
        var r;
        ghost var steps;
        r, steps := pprev.GetAncestor(GetSkipHeight(height));
        hide Ancestry, GetSkipHeight, Linked, SkipOk;
        BelowThis(this);
        ghost var all := Ancestry(this);
        assert r == all[GetSkipHeight(height)];
        pskip := r;
        SkipSet(this);
        assert forall i :: 0 <= i < height ==> SkipOk(all[i]) by {
          assert forall i :: 0 <= i < height ==> old(SkipOk(all[i]));
        }
      }
    }
  }

  /** Heights count the predecessors down to a block without one. */
  ghost predicate Linked(b: BlockIndex)
    decreases b.height
  {
    && (b.pprev == null <==> b.height == 0)
    && (b.pprev != null ==> b.pprev.height == b.height - 1 && Linked(b.pprev))
  }

  /** All ancestors of a block by height, and the block itself. */
  ghost function Ancestry(b: BlockIndex): (s: seq<BlockIndex>)
    requires Linked(b)
    ensures |s| == b.height + 1 && s[b.height] == b
    ensures forall i :: 0 <= i < |s| ==> s[i].height == i && Linked(s[i])
    decreases b.height
  {
    if b.pprev == null then [b] else Ancestry(b.pprev) + [b]
  }

  ghost function AncestorAt(b: BlockIndex, h: int): BlockIndex?
    requires Linked(b)
  {
    if 0 <= h <= b.height then Ancestry(b)[h] else null
  }

  lemma BelowThis(b: BlockIndex)
    requires Linked(b) && b.pprev != null
    ensures b.height > 0 && Linked(b.pprev)
    ensures forall i :: 0 <= i < b.height ==> Ancestry(b)[i] == Ancestry(b.pprev)[i] && Ancestry(b)[i] != b
  {
    PrevInAncestry(b);
    hide Ancestry;
    assert Ancestry(b)[..b.height] == Ancestry(b.pprev);
  }

  lemma SkipSet(b: BlockIndex)
    requires Linked(b) && b.pskip == Ancestry(b)[GetSkipHeight(b.height)]
    ensures SkipOk(b)
  {
  }

  lemma PrevInAncestry(b: BlockIndex)
    requires Linked(b)
    ensures b.height > 0 ==>
      b.pprev != null && Ancestry(b)[b.height - 1] == b.pprev && Ancestry(b)[..b.height] == Ancestry(b.pprev)
  {
  }

  lemma {:induction false} AncestryPrefix(b: BlockIndex, h: nat)
    requires Linked(b) && h <= b.height
    ensures Ancestry(Ancestry(b)[h]) == Ancestry(b)[..h + 1]
    decreases b.height
  {
    if h < b.height {
      AncestryPrefix(b.pprev, h);
    }
  }

  lemma AncestorOfAncestor(b: BlockIndex, h: nat, i: nat)
    requires Linked(b) && i <= h <= b.height
    ensures Ancestry(Ancestry(b)[h])[i] == Ancestry(b)[i]
  {
    AncestryPrefix(b, h);
  }

  /** Skip pointers of a block and its ancestors, where set, are those that `BuildSkip` sets. */
  ghost predicate SkipsOk(b: BlockIndex)
    requires Linked(b)
    reads Ancestry(b)
  {
    forall i :: 0 <= i < |Ancestry(b)| ==> SkipOk(Ancestry(b)[i])
  }

  ghost predicate SkipOk(b: BlockIndex)
    requires Linked(b)
    reads b
  {
    b.pskip != null ==> b.pskip == Ancestry(b)[GetSkipHeight(b.height)]
  }

  /** Every ancestor but genesis has its skip pointer. */
  ghost predicate SkipsSet(b: BlockIndex)
    requires Linked(b)
    reads Ancestry(b)
  {
    forall i :: 1 <= i < |Ancestry(b)| ==> Ancestry(b)[i].pskip != null
  }

  /** Ancestors existed before their descendants. */
  lemma {:induction false} AncestryAllocated(b: BlockIndex)
    requires Linked(b)
    ensures forall i :: 0 <= i <= b.height ==> allocated(Ancestry(b)[i])
    decreases b.height
  {
    if b.pprev != null {
      AncestryAllocated(b.pprev);
    }
  }

  // The active chain.

  /** A vector that holds a block and all its ancestors by height. */
  ghost predicate Holds(c: seq<BlockIndex?>, tip: BlockIndex) {
    Linked(tip) && |c| == tip.height + 1 && forall i :: 0 <= i < |c| ==> c[i] == Ancestry(tip)[i]
  }

  ghost predicate IsChain(c: seq<BlockIndex?>) {
    c != [] ==> c[|c| - 1] != null && Holds(c, c[|c| - 1])
  }

  /** `vector::resize`. */
  function Resized(c: seq<BlockIndex?>, n: nat): (r: seq<BlockIndex?>)
    ensures |r| == n
  {
    if n <= |c| then c[..n] else c + seq(n - |c|, i => null)
  }

  /** A block of a chain has the same ancestry there as anywhere. */
  lemma SharedPrefix(c: seq<BlockIndex?>, b: BlockIndex)
    requires IsChain(c) && Linked(b) && b.height < |c| && c[b.height] == b
    ensures forall i :: 0 <= i <= b.height ==> c[i] == Ancestry(b)[i]
  {
    var tip := c[|c| - 1];
    AncestryPrefix(tip, b.height);
    assert forall i :: 0 <= i <= b.height ==> Ancestry(tip)[..b.height + 1][i] == Ancestry(tip)[i];
  }

  class ActiveChain {
    var vChain: seq<BlockIndex?>

    constructor ()
      ensures vChain == []
    {
      vChain := [];
    }

    function At(h: int): BlockIndex?
      reads this
    {
      if h < 0 || h >= |vChain| then null else vChain[h]
    }

    function Tip(): BlockIndex?
      reads this
    {
      At(|vChain| - 1)
    }

    function Height(): int
      reads this
    {
      |vChain| - 1
    }

    /** Whether a block is in the chain: among the ancestors of the tip, or the tip. */
    predicate Contains(b: BlockIndex)
      reads this
    {
      At(b.height) == b
    }

    /** The block after `b`, if `b` is in the chain and not its tip. */
    function Next(b: BlockIndex): BlockIndex?
      reads this
    {
      if Contains(b) then At(b.height + 1) else null
    }

    /** A block is in the chain just when the tip descends from it, and the block after it is its child there. */
    lemma NextIsChild(b: BlockIndex)
      requires IsChain(vChain)
      ensures Contains(b) <==> vChain != [] && AncestorAt(vChain[|vChain| - 1], b.height) == b
      ensures Next(b) == null <==> b == Tip() || !Contains(b)
      ensures Next(b) != null ==> Next(b).pprev == b && Contains(Next(b))
    {
      if Contains(b) && b.height < Height() {
        var tip := vChain[|vChain| - 1];
        AncestryPrefix(tip, b.height + 1);
        PrevInAncestry(Ancestry(tip)[b.height + 1]);
        assert Ancestry(tip)[..b.height + 2][b.height] == b;
      }
    }

    /** Makes `b` the tip; the loop stops at the first block that is already in place. */
    method SetTip(b: BlockIndex?)
      requires IsChain(vChain) && (b != null ==> Linked(b))
      modifies this
      ensures IsChain(vChain) && Tip() == b
      ensures b == null ==> vChain == []
      ensures b != null ==> Holds(vChain, b)
    {
      if b == null {
        vChain := [];
        return;
      }
      ghost var was := vChain;
      vChain := Resized(vChain, b.height + 1);
      var stop := Fill(b);
      StoppedInPlace(was, vChain, b, stop);
    }

    /** Writes a block and its ancestors until one of them is already in place. */
    method Fill(b: BlockIndex) returns (walk: BlockIndex?)
      requires Linked(b) && |vChain| == b.height + 1
      modifies this
      ensures |vChain| == b.height + 1
      ensures walk != null ==>
        walk.height <= b.height && walk == Ancestry(b)[walk.height] && old(vChain)[walk.height] == walk
      ensures forall i :: 0 <= i <= b.height ==>
        vChain[i] == if walk == null || walk.height < i then Ancestry(b)[i] else old(vChain)[i]
    {
      hide Ancestry, Linked;
      walk := b;
      while walk != null && vChain[walk.height] != walk
        invariant walk != null ==> walk.height <= b.height && Linked(walk) && walk == Ancestry(b)[walk.height]
        invariant |vChain| == b.height + 1
        invariant forall i :: 0 <= i <= b.height ==>
          vChain[i] == if walk == null || walk.height < i then Ancestry(b)[i] else old(vChain)[i]
        decreases if walk == null then 0 else walk.height + 1
      {
        AncestryPrefix(b, walk.height);
        PrevInAncestry(walk);
        assert walk.height > 0 ==> Ancestry(b)[..walk.height + 1][walk.height - 1] == walk.pprev;
        PrevOrGenesis(walk);
        vChain := vChain[walk.height := walk];
        walk := walk.pprev;
      }
    }

    /** An ancestor of `p`, from the vector if `p` is in the chain and through the tree otherwise. */
    method GoBack(p: BlockIndex, h: int) returns (r: BlockIndex)
      requires IsChain(vChain) && Linked(p) && SkipsOk(p) && 0 <= h <= p.height
      ensures r == Ancestry(p)[h] && SkipsOk(r)
    {
      hide Ancestry, Linked, IsChain;
      SkipsOfAncestor(p, h);
      ghost var all := Ancestry(Ancestry(p)[h]);
      AncestryAllocated(p);
      AncestryAllocated(Ancestry(p)[h]);
      assert forall i :: 0 <= i < |all| ==> SkipOk(all[i]);
      if Contains(p) {
        SharedPrefix(vChain, p);
        r := At(h);
      } else {
        ghost var steps;
        r, steps := p.GetAncestor(h);
      }
    }

    method LocatorFrom(start: BlockIndex) returns (have: seq<int>)
      requires IsChain(vChain) && Linked(start) && SkipsOk(start)
      ensures have == HashesAt(start, LocatorHeights(start.height, 0))
    {
      AncestryAllocated(start);
      hide Ancestry, Linked, IsChain, SkipsOk, Step, LocatorHashes, LocatorHeights, Back, HashesAt;
      var step, p := 1, start;
      have := [];
      assert step == Step(0) by { FirstStep(); }
      LocatorHashesAt(start, start.height, 0);
      while true
        invariant p.height <= start.height && Linked(p) && SkipsOk(p) && p == Ancestry(start)[p.height]
        invariant step == Step(|have|)
        invariant have + LocatorHashes(start, p.height, |have|) == LocatorHashes(start, start.height, 0)
        decreases p.height
      {
        LocatorNext(start, have, p.height, |have|);
        have := have + [p.hash];
        if p.height == 0 {
          break;
        }
        var next := Back(p.height, step);
        AncestorOfAncestor(start, p.height, next);
        p := GoBack(p, next);
        NextStep(|have| - 1);
        step := if |have| > 10 then step * 2 else step;
      }
    }

    /** The hashes of a block, or of the tip, and of ancestors at growing distances down to genesis. */
    method GetLocator(b: BlockIndex?) returns (have: seq<int>)
      requires IsChain(vChain) && (b != null ==> Linked(b) && SkipsOk(b))
      requires Tip() != null && Linked(Tip()) ==> SkipsOk(Tip())
      ensures b != null ==> have == HashesAt(b, LocatorHeights(b.height, 0))
      ensures b == null && vChain == [] ==> have == []
      ensures b == null && vChain != [] ==>
        Tip() != null && Linked(Tip()) && have == HashesAt(Tip(), LocatorHeights(Tip().height, 0))
    {
      if b != null {
        have := LocatorFrom(b);
      } else if Tip() != null {
        TipIsLinked(vChain);
        have := LocatorFrom(Tip());
      } else {
        have := [];
      }
    }

    /** The highest block of the chain among a block and its ancestors; null if there is none. */
    method FindFork(b: BlockIndex?) returns (r: BlockIndex?)
      requires IsChain(vChain) && (b != null ==> Linked(b) && SkipsOk(b))
      ensures b == null ==> r == null
      ensures b != null && r != null ==>
        && Contains(r) && AncestorAt(b, r.height) == r
        && forall i :: r.height < i <= b.height ==> !Contains(Ancestry(b)[i])
      ensures b != null && r == null ==> forall i :: 0 <= i <= b.height ==> !Contains(Ancestry(b)[i])
    {
      if b == null {
        return null;
      }
      hide Ancestry, Linked;
      r := b;
      if b.height > Height() {
        ghost var steps;
        r, steps := b.GetAncestor(Height());
      }
      while r != null && !Contains(r)
        invariant r != null ==> r.height <= b.height && Linked(r) && r == Ancestry(b)[r.height]
        invariant forall i :: 0 <= i <= b.height && (r != null ==> r.height < i) ==> !Contains(Ancestry(b)[i])
        decreases if r == null then 0 else r.height + 1
      {
        AncestryPrefix(b, r.height);
        PrevInAncestry(r);
        assert r.height > 0 ==> Ancestry(b)[..r.height + 1][r.height - 1] == r.pprev;
        PrevOrGenesis(r);
        r := r.pprev;
      }
    }
  }

  /** Where the early stop of `SetTip` leaves the old entries, they are the right ones. */
  lemma StoppedInPlace(was: seq<BlockIndex?>, c: seq<BlockIndex?>, b: BlockIndex, stop: BlockIndex?)
    requires IsChain(was) && Linked(b) && |c| == b.height + 1
    requires stop != null ==>
      stop.height <= b.height && stop == Ancestry(b)[stop.height] && Resized(was, b.height + 1)[stop.height] == stop
    requires forall i :: 0 <= i <= b.height ==>
      c[i] == if stop == null || stop.height < i then Ancestry(b)[i] else Resized(was, b.height + 1)[i]
    ensures Holds(c, b) && IsChain(c) && c[b.height] == b
  {
    hide Ancestry, Linked, IsChain;
    if stop != null {
      AncestryPrefix(b, stop.height);
      SharedPrefix(was, stop);
      assert forall i :: 0 <= i <= stop.height ==> Ancestry(b)[..stop.height + 1][i] == Ancestry(b)[i];
    }
    HoldsIsChain(c, b);
  }

  // Locators.

  /** How far the locator goes back after its entry `k`. */
  function Step(k: nat): (r: nat)
    ensures r >= 1
  {
    if k <= 10 then 1 else Pow2(k - 10)
  }

  function Back(h: nat, step: nat): (r: nat)
    requires step >= 1
    ensures h > 0 ==> r < h
    ensures r <= h
  {
    if h - step < 0 then 0 else h - step
  }

  lemma FirstStep()
    ensures Step(0) == 1
  {
  }

  lemma NextStep(k: nat)
    ensures Step(k + 1) == if k + 1 > 10 then Step(k) * 2 else Step(k)
  {
  }

  /** The heights of the entries of a locator from entry `k` on. */
  function LocatorHeights(h: nat, k: nat): (s: seq<int>)
    ensures |s| > 0 && forall i :: 0 <= i < |s| ==> 0 <= s[i] <= h
    decreases h
  {
    [h] + (if h == 0 then [] else LocatorHeights(Back(h, Step(k)), k + 1))
  }

  ghost function HashesAt(b: BlockIndex, heights: seq<int>): (r: seq<int>)
    requires Linked(b)
    requires forall i :: 0 <= i < |heights| ==> 0 <= heights[i] <= b.height
    ensures |r| == |heights| && forall i :: 0 <= i < |r| ==> r[i] == Ancestry(b)[heights[i]].hash
  {
    seq(|heights|, i requires 0 <= i < |heights| => Ancestry(b)[heights[i]].hash)
  }

  /** The entries of a locator from entry `k` on. */
  ghost function LocatorHashes(b: BlockIndex, h: nat, k: nat): seq<int>
    requires Linked(b) && h <= b.height
    decreases h
  {
    [Ancestry(b)[h].hash] + (if h == 0 then [] else LocatorHashes(b, Back(h, Step(k)), k + 1))
  }

  lemma LocatorNext(b: BlockIndex, have: seq<int>, h: nat, k: nat)
    requires Linked(b) && h <= b.height
    ensures have + LocatorHashes(b, h, k)
      == have + [Ancestry(b)[h].hash] + (if h == 0 then [] else LocatorHashes(b, Back(h, Step(k)), k + 1))
  {
    hide Ancestry, Linked;
  }

  lemma {:induction false} LocatorHashesAt(b: BlockIndex, h: nat, k: nat)
    requires Linked(b) && h <= b.height
    ensures LocatorHashes(b, h, k) == HashesAt(b, LocatorHeights(h, k))
    decreases h
  {
    hide Ancestry, Linked;
    if h > 0 {
      LocatorHashesAt(b, Back(h, Step(k)), k + 1);
    }
  }

  lemma TipIsLinked(c: seq<BlockIndex?>)
    requires IsChain(c) && c != []
    ensures c[|c| - 1] != null && Linked(c[|c| - 1])
  {
  }

  lemma SkipsOfAncestor(b: BlockIndex, h: nat)
    requires Linked(b) && SkipsOk(b) && h <= b.height
    ensures SkipsOk(Ancestry(b)[h])
  {
    AncestryPrefix(b, h);
    var a := Ancestry(b)[h];
    forall i | 0 <= i < |Ancestry(a)| ensures SkipOk(Ancestry(a)[i]) {
      assert Ancestry(a)[i] == Ancestry(b)[..h + 1][i] == Ancestry(b)[i];
    }
  }

  /** A locator goes strictly down, from its block to genesis. */
  lemma {:induction false} LocatorDescends(h: nat, k: nat)
    ensures var s := LocatorHeights(h, k);
      && s[0] == h && s[|s| - 1] == 0
      && (forall i, j :: 0 <= i < j < |s| ==> s[i] > s[j])
    decreases h
  {
    if h > 0 {
      LocatorDescends(Back(h, Step(k)), k + 1);
    }
  }

  /** How far below its block entry `k` of a locator is, until genesis is near. */
  function Distance(k: nat): nat {
    if k == 0 then 0 else Distance(k - 1) + Step(k - 1)
  }

  /** The same without the steps: one by one as far as 11 blocks back, then with doubling distances. */
  function Depth(k: nat): nat {
    if k <= 11 then k else Pow2(k - 10) + 9
  }

  lemma {:induction false} DistanceIs(k: nat)
    ensures Distance(k) == Depth(k)
  {
    if k > 0 {
      DistanceIs(k - 1);
    }
  }

  function Below(h: int, depth: int): int {
    if h <= depth then 0 else h - depth
  }

  /** A locator from entry `k` on, after its first entry. */
  lemma LocatorRest(h: nat, k: nat)
    requires h > 0
    ensures LocatorHeights(h, k) == [h] + LocatorHeights(Back(h, Step(k)), k + 1)
    ensures Distance(k + 1) == Distance(k) + Step(k) && Below(h, Step(k)) == Back(h, Step(k))
  {
    hide Step;
  }

  lemma LocatorFirst(h: nat, k: nat)
    ensures LocatorHeights(h, k)[0] == h && (h == 0 ==> |LocatorHeights(h, k)| == 1)
  {
    hide Step;
  }

  /** Every entry from entry `k` on lies its distance back. */
  lemma {:induction false} LocatorAt(h: nat, k: nat, i: nat)
    requires i < |LocatorHeights(h, k)|
    ensures LocatorHeights(h, k)[i] == Below(h, Distance(k + i) - Distance(k))
    decreases h
  {
    hide LocatorHeights, Step, Distance, Back;
    LocatorFirst(h, k);
    if i > 0 {
      LocatorRest(h, k);
      LocatorAt(Back(h, Step(k)), k + 1, i - 1);
      DistanceGrows(k + 1, k + i);
    }
  }

  lemma {:induction false} DistanceGrows(j: nat, k: nat)
    requires j <= k
    ensures Distance(j) <= Distance(k)
  {
    if j < k {
      DistanceGrows(j, k - 1);
    }
  }

  /** Only the last entry is as far back as genesis. */
  lemma {:induction false} LocatorReach(h: nat, k: nat)
    ensures var n := |LocatorHeights(h, k)|;
      && h <= Distance(k + n - 1) - Distance(k)
      && (n >= 2 ==> Distance(k + n - 2) - Distance(k) < h)
    decreases h
  {
    hide LocatorHeights, Step, Distance, Back;
    LocatorFirst(h, k);
    if h > 0 {
      LocatorRest(h, k);
      LocatorReach(Back(h, Step(k)), k + 1);
      var n := |LocatorHeights(h, k)|;
      DistanceGrows(k + 1, k + n - 1);
      if n > 2 {
        DistanceGrows(k + 1, k + n - 2);
      }
    }
  }

  /** The heights of a locator and their number in closed form; the number is logarithmic in the height. */
  lemma LocatorLength(h: nat)
    ensures var s := LocatorHeights(h, 0);
      && (forall i :: 0 <= i < |s| ==> s[i] == Below(h, Depth(i)))
      && h <= Depth(|s| - 1)
      && (|s| >= 2 ==> Depth(|s| - 2) < h)
  {
    hide LocatorHeights, Depth, Below;
    var s := LocatorHeights(h, 0);
    LocatorReach(h, 0);
    DistanceIs(|s| - 1);
    if |s| >= 2 {
      DistanceIs(|s| - 2);
    }
    forall i | 0 <= i < |s| ensures s[i] == Below(h, Depth(i)) {
      LocatorAt(h, 0, i);
      DistanceIs(i);
    }
  }

  lemma PrevOrGenesis(b: BlockIndex)
    requires Linked(b)
    ensures if b.pprev == null then b.height == 0 else Linked(b.pprev) && b.pprev.height == b.height - 1
  {
  }

  lemma HoldsIsChain(c: seq<BlockIndex?>, b: BlockIndex)
    requires Holds(c, b)
    ensures IsChain(c) && c[|c| - 1] == b
  {
  }

  /** The highest block that is an ancestor of both, or one of them; null if they have none in common. */
  method LastCommonAncestor(a: BlockIndex, b: BlockIndex) returns (r: BlockIndex?)
    requires Linked(a) && SkipsOk(a) && Linked(b) && SkipsOk(b)
    ensures r != null ==> AncestorAt(a, r.height) == r && AncestorAt(b, r.height) == r
    ensures forall i :: 0 <= i <= a.height && i <= b.height && (r != null ==> r.height < i) ==>
      Ancestry(a)[i] != Ancestry(b)[i]
  {
    hide Ancestry, Linked;
    var pa: BlockIndex?, pb: BlockIndex? := a, b;
    ghost var steps;
    if a.height > b.height {
      pa, steps := a.GetAncestor(b.height);
    } else if b.height > a.height {
      pb, steps := b.GetAncestor(a.height);
    }
    while pa != pb && pa != null && pb != null
      invariant pa != null ==> pa.height <= a.height && Linked(pa) && pa == Ancestry(a)[pa.height]
      invariant pb != null ==> pb.height <= b.height && Linked(pb) && pb == Ancestry(b)[pb.height]
      invariant pa == null <==> pb == null
      invariant pa != null ==> pa.height == pb.height
      invariant forall i :: 0 <= i <= a.height && i <= b.height && (pa != null ==> pa.height < i) ==>
        Ancestry(a)[i] != Ancestry(b)[i]
      decreases if pa == null then 0 else pa.height + 1
    {
      AncestryPrefix(a, pa.height);
      AncestryPrefix(b, pb.height);
      PrevInAncestry(pa);
      PrevInAncestry(pb);
      assert pa.height > 0 ==> Ancestry(a)[..pa.height + 1][pa.height - 1] == pa.pprev;
      assert pb.height > 0 ==> Ancestry(b)[..pb.height + 1][pb.height - 1] == pb.pprev;
      PrevOrGenesis(pa);
      PrevOrGenesis(pb);
      pa, pb := pa.pprev, pb.pprev;
    }
    assert pa == pb;
    return pa;
  }
}
