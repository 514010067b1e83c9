/**
 * Partial Merkle trees at the value level: the tree of transaction ids, the
 * depth-first encoding of a marked subset, and its decoder.
 */
module MerkleModel {
  import opened Arithmetic
  import opened Common

  const MIN_TRANSACTION_WEIGHT: int := 240

  /** A 256-bit hash; zero is the null hash. */
  type Hash = nat

  /** `CalcTreeWidth`: the number of nodes at a height. */
  function Width(n: nat, height: nat): nat {
    (n + Pow2(height) - 1) / Pow2(height)
  }

  /** A position is a node exactly when its leftmost leaf exists. */
  lemma NodeHasLeaf(n: nat, h: nat, k: nat)
    ensures k < Width(n, h) <==> k * Pow2(h) < n
  {
    hide Pow2;
    var p := Pow2(h);
    DivMod(n + p - 1, p);
    var q := Width(n, h);
    if k < q {
      TimesMonotone(k + 1, p, q, p);
    } else {
      TimesMonotone(q, p, k, p);
    }
  }

  predicate IsNode(n: nat, h: nat, pos: nat) { pos < Width(n, h) }

  lemma Children(n: nat, h: nat, pos: nat)
    requires h > 0 && IsNode(n, h, pos)
    ensures IsNode(n, h - 1, 2 * pos)
  {
    NodeHasLeaf(n, h, pos);
    NodeHasLeaf(n, h - 1, 2 * pos);
    assert 2 * pos * Pow2(h - 1) == pos * Pow2(h);
  }

  lemma LeafWidth(n: nat)
    ensures Width(n, 0) == n
  {
  }

  /** The hash of a node of the full tree. */
  function CalcHash(hash: (Hash, Hash) -> Hash, txids: seq<Hash>, h: nat, pos: nat): Hash
    requires IsNode(|txids|, h, pos)
  {
    if h == 0 then
      LeafWidth(|txids|);
      txids[pos]
    else
      Children(|txids|, h, pos);
      var left := CalcHash(hash, txids, h - 1, 2 * pos);
      if 2 * pos + 1 < Width(|txids|, h - 1) then hash(left, CalcHash(hash, txids, h - 1, 2 * pos + 1))
      else hash(left, left)
  }

  /** Whether a leaf below the node is marked. */
  predicate AnyMatch(marks: seq<bool>, h: nat, pos: nat) {
    exists p :: pos * Pow2(h) <= p < (pos + 1) * Pow2(h) && p < |marks| && marks[p]
  }

  /** The flag bits that a node contributes. */
  ghost function Bits(marks: seq<bool>, h: nat, pos: nat): seq<bool>
    requires IsNode(|marks|, h, pos)
  {
    if h == 0 || !AnyMatch(marks, h, pos) then [AnyMatch(marks, h, pos)]
    else
      Children(|marks|, h, pos);
      [true] + Bits(marks, h - 1, 2 * pos) +
      (if 2 * pos + 1 < Width(|marks|, h - 1) then Bits(marks, h - 1, 2 * pos + 1) else [])
  }

  /** The hashes that a node contributes. */
  ghost function Hashes(hash: (Hash, Hash) -> Hash, txids: seq<Hash>, marks: seq<bool>, h: nat, pos: nat): seq<Hash>
    requires |marks| == |txids| && IsNode(|txids|, h, pos)
  {
    if h == 0 || !AnyMatch(marks, h, pos) then [CalcHash(hash, txids, h, pos)]
    else
      Children(|marks|, h, pos);
      Hashes(hash, txids, marks, h - 1, 2 * pos) +
      (if 2 * pos + 1 < Width(|marks|, h - 1) then Hashes(hash, txids, marks, h - 1, 2 * pos + 1) else [])
  }

  /** The cursors and results of a decoding traversal. */
  datatype Cursor = Cursor(bitsUsed: nat, hashesUsed: nat, bad: bool, matches: seq<Hash>, indexes: seq<nat>)

  datatype Extracted = Extracted(hash: Hash, cursor: Cursor)

  /** `TraverseAndExtract` over arbitrary bits and hashes. */
  function Extract(hash: (Hash, Hash) -> Hash, n: nat, bits: seq<bool>, hashes: seq<Hash>,
                   h: nat, pos: nat, c: Cursor): Extracted
  {
    if c.bitsUsed >= |bits| then Extracted(0, c.(bad := true))
    else
      var parentOfMatch := bits[c.bitsUsed];
      var c1 := c.(bitsUsed := c.bitsUsed + 1);
      if h == 0 || !parentOfMatch then
        if c1.hashesUsed >= |hashes| then Extracted(0, c1.(bad := true))
        else
          var x := hashes[c1.hashesUsed];
          var c2 := c1.(hashesUsed := c1.hashesUsed + 1);
          if h == 0 && parentOfMatch then
            Extracted(x, c2.(matches := c2.matches + [x], indexes := c2.indexes + [pos]))
          else
            Extracted(x, c2)
      else
        var left := Extract(hash, n, bits, hashes, h - 1, 2 * pos, c1);
        if 2 * pos + 1 < Width(n, h - 1) then
          var right := Extract(hash, n, bits, hashes, h - 1, 2 * pos + 1, left.cursor);
          Extracted(hash(left.hash, right.hash),
                    if right.hash == left.hash then right.cursor.(bad := true) else right.cursor)
        else
          Extracted(hash(left.hash, left.hash), left.cursor)
  }

  /** The height of the tree: the least height of width at most one. */
  function Height(n: nat, h: nat): (r: nat)
    requires forall k :: 0 <= k < h ==> Width(n, k) > 1
    ensures Width(n, r) <= 1 && r >= h
    decreases if Pow2(h) > n then 0 else n - Pow2(h) + 1
  {
    if Width(n, h) <= 1 then h
    else
      WideMeansSmall(n, h);
      Height(n, h + 1)
  }

  lemma WideMeansSmall(n: nat, h: nat)
    requires Width(n, h) > 1
    ensures Pow2(h) < n
  {
    NodeHasLeaf(n, h, 1);
  }

  // What a traversal is about: the leaves below a node.

  function First(h: nat, pos: nat): nat { pos * Pow2(h) }

  function Last(n: nat, h: nat, pos: nat): nat {
    if (pos + 1) * Pow2(h) < n then (pos + 1) * Pow2(h) else n
  }

  /** The marked positions in a range, in order. */
  function Marked(marks: seq<bool>, lo: nat, hi: nat): seq<nat>
    requires hi <= |marks|
    decreases hi - lo
  {
    if lo >= hi then [] else (if marks[lo] then [lo] else []) + Marked(marks, lo + 1, hi)
  }

  lemma {:induction false} MarkedSplit(marks: seq<bool>, lo: nat, mid: nat, hi: nat)
    requires lo <= mid <= hi <= |marks|
    ensures Marked(marks, lo, hi) == Marked(marks, lo, mid) + Marked(marks, mid, hi)
    decreases mid - lo
  {
    if lo < mid {
      MarkedSplit(marks, lo + 1, mid, hi);
    }
  }

  lemma {:induction false} NoneMarked(marks: seq<bool>, lo: nat, hi: nat)
    requires hi <= |marks| && forall p :: lo <= p < hi ==> !marks[p]
    ensures Marked(marks, lo, hi) == []
    decreases hi - lo
  {
    if lo < hi {
      NoneMarked(marks, lo + 1, hi);
    }
  }

  function Select(txids: seq<Hash>, indexes: seq<nat>): (r: seq<Hash>)
    requires forall i :: i in indexes ==> i < |txids|
    ensures |r| == |indexes|
  {
    seq(|indexes|, k requires 0 <= k < |indexes| => assert indexes[k] in indexes; txids[indexes[k]])
  }

  lemma {:induction false} MarkedInRange(marks: seq<bool>, lo: nat, hi: nat)
    requires hi <= |marks|
    ensures forall i :: i in Marked(marks, lo, hi) <==> lo <= i < hi && marks[i]
    decreases hi - lo
  {
    if lo < hi {
      MarkedInRange(marks, lo + 1, hi);
    }
  }

  predicate Increasing(s: seq<nat>) {
    forall j, k :: 0 <= j < k < |s| ==> s[j] < s[k]
  }

  lemma IncreasingConcat(s: seq<nat>, t: seq<nat>, mid: nat)
    requires Increasing(s) && Increasing(t)
    requires (forall i :: i in s ==> i < mid) && (forall i :: i in t ==> mid <= i)
    ensures Increasing(s + t)
  {
    forall j, k | 0 <= j < k < |s + t| ensures (s + t)[j] < (s + t)[k] {
      if j < |s| <= k {
        assert s[j] in s && t[k - |s|] in t;
      }
    }
  }

  lemma {:induction false} MarkedIncreasing(marks: seq<bool>, lo: nat, hi: nat)
    requires hi <= |marks|
    ensures Increasing(Marked(marks, lo, hi))
    decreases hi - lo
  {
    if lo < hi {
      MarkedIncreasing(marks, lo + 1, hi);
      MarkedInRange(marks, lo + 1, hi);
      IncreasingConcat(if marks[lo] then [lo] else [], Marked(marks, lo + 1, hi), lo + 1);
    }
  }

  /** The ranges of the children make up the range of the node. */
  lemma Ranges(n: nat, h: nat, pos: nat)
    requires h > 0 && IsNode(n, h, pos)
    ensures First(h, pos) == First(h - 1, 2 * pos) <= Last(n, h - 1, 2 * pos) <= n && Last(n, h, pos) <= n
    ensures 2 * pos + 1 < Width(n, h - 1) ==>
      && Last(n, h - 1, 2 * pos) == First(h - 1, 2 * pos + 1) <= Last(n, h - 1, 2 * pos + 1) == Last(n, h, pos)
    ensures !(2 * pos + 1 < Width(n, h - 1)) ==> Last(n, h - 1, 2 * pos) == Last(n, h, pos)
  {
    NodeHasLeaf(n, h - 1, 2 * pos + 1);
    NodeHasLeaf(n, h, pos);
    Doubled(pos, Pow2(h - 1));
  }

  lemma Doubled(pos: nat, p: nat)
    ensures pos * (2 * p) == (2 * pos) * p
    ensures (2 * pos + 1) * p == (2 * pos) * p + p
    ensures (pos + 1) * (2 * p) == (2 * pos + 1 + 1) * p == (2 * pos + 1) * p + p
  {
  }

  // Round trip.

  /** Two sibling nodes with the same hash, which the decoder refuses. */
  predicate Twins(hash: (Hash, Hash) -> Hash, txids: seq<Hash>, h: nat, pos: nat)
    requires h > 0 && IsNode(|txids|, h, pos)
  {
    Children(|txids|, h, pos);
    && 2 * pos + 1 < Width(|txids|, h - 1)
    && CalcHash(hash, txids, h - 1, 2 * pos) == CalcHash(hash, txids, h - 1, 2 * pos + 1)
  }

  /** No node that the traversal descends into has twin children. */
  ghost predicate NoTwins(hash: (Hash, Hash) -> Hash, txids: seq<Hash>, marks: seq<bool>, h: nat, pos: nat)
    requires |marks| == |txids| && IsNode(|txids|, h, pos)
  {
    if h == 0 || !AnyMatch(marks, h, pos) then true
    else
      Children(|txids|, h, pos);
      && !Twins(hash, txids, h, pos)
      && NoTwins(hash, txids, marks, h - 1, 2 * pos)
      && (2 * pos + 1 < Width(|txids|, h - 1) ==> NoTwins(hash, txids, marks, h - 1, 2 * pos + 1))
  }

  /** The cursor after the part of a node was decoded. */
  ghost function Passed(hash: (Hash, Hash) -> Hash, txids: seq<Hash>, marks: seq<bool>, h: nat, pos: nat, c: Cursor)
    : Cursor
    requires |marks| == |txids| && IsNode(|txids|, h, pos)
  {
    var found := Marked(marks, First(h, pos), Last(|marks|, h, pos));
    MarkedInRange(marks, First(h, pos), Last(|marks|, h, pos));
    Cursor(c.bitsUsed + |Bits(marks, h, pos)|, c.hashesUsed + |Hashes(hash, txids, marks, h, pos)|,
           c.bad || !NoTwins(hash, txids, marks, h, pos),
           c.matches + Select(txids, found), c.indexes + found)
  }

  /** `part` stands at `at` in `whole`. */
  predicate PartAt<T(==)>(whole: seq<T>, at: nat, part: seq<T>) {
    at + |part| <= |whole| && whole[at..at + |part|] == part
  }

  lemma PartSplit<T>(whole: seq<T>, at: nat, a: seq<T>, b: seq<T>)
    requires PartAt(whole, at, a + b)
    ensures PartAt(whole, at, a) && PartAt(whole, at + |a|, b)
  {
    var both := whole[at..at + |a + b|];
    assert whole[at..at + |a|] == both[..|a|];
    assert whole[at + |a|..at + |a| + |b|] == both[|a|..];
  }

  lemma PartHead<T>(whole: seq<T>, at: nat, x: T)
    requires PartAt(whole, at, [x])
    ensures at < |whole| && whole[at] == x
  {
    assert whole[at..at + 1][0] == x;
  }

  lemma SelectConcat(txids: seq<Hash>, a: seq<nat>, b: seq<nat>)
    requires (forall i :: i in a ==> i < |txids|) && (forall i :: i in b ==> i < |txids|)
    ensures (forall i :: i in a + b ==> i < |txids|) && Select(txids, a + b) == Select(txids, a) + Select(txids, b)
  {
  }

  /** A node that stores its own hash: a leaf, or nothing marked below. */
  lemma ExtractStored(hash: (Hash, Hash) -> Hash, txids: seq<Hash>, marks: seq<bool>, h: nat, pos: nat,
                      bits: seq<bool>, hashes: seq<Hash>, c: Cursor)
    requires |marks| == |txids| && IsNode(|txids|, h, pos) && (h == 0 || !AnyMatch(marks, h, pos))
    requires PartAt(bits, c.bitsUsed, Bits(marks, h, pos))
    requires PartAt(hashes, c.hashesUsed, Hashes(hash, txids, marks, h, pos))
    ensures Extract(hash, |txids|, bits, hashes, h, pos, c) ==
      Extracted(CalcHash(hash, txids, h, pos), Passed(hash, txids, marks, h, pos, c))
  {
    var lo, hi := First(h, pos), Last(|marks|, h, pos);
    assert bits[c.bitsUsed..c.bitsUsed + 1][0] == bits[c.bitsUsed];
    assert hashes[c.hashesUsed..c.hashesUsed + 1][0] == hashes[c.hashesUsed];
    MarkedInRange(marks, lo, hi);
    if AnyMatch(marks, h, pos) {
      LeafWidth(|txids|);
      assert lo == pos && hi == pos + 1 && marks[pos];
      assert Marked(marks, pos, pos + 1) == [pos];
      assert Select(txids, [pos]) == [txids[pos]];
    } else {
      NoneMarked(marks, lo, hi);
    }
  }

  /** The marked leaves of a node are those of its left child and then those of its right child. */
  lemma FoundSplit(txids: seq<Hash>, marks: seq<bool>, lo: nat, mid: nat, hi: nat, c: Cursor)
    requires lo <= mid <= hi <= |marks| == |txids|
    ensures forall i :: i in Marked(marks, lo, hi) ==> i < |txids|
    ensures forall i :: i in Marked(marks, lo, mid) ==> i < |txids|
    ensures forall i :: i in Marked(marks, mid, hi) ==> i < |txids|
    ensures c.indexes + Marked(marks, lo, hi) == c.indexes + Marked(marks, lo, mid) + Marked(marks, mid, hi)
    ensures c.matches + Select(txids, Marked(marks, lo, hi)) ==
      c.matches + Select(txids, Marked(marks, lo, mid)) + Select(txids, Marked(marks, mid, hi))
  {
    hide Marked, Select;
    var a, b := Marked(marks, lo, mid), Marked(marks, mid, hi);
    MarkedInRange(marks, lo, mid);
    MarkedInRange(marks, mid, hi);
    MarkedInRange(marks, lo, hi);
    MarkedSplit(marks, lo, mid, hi);
    SelectConcat(txids, a, b);
    assert c.indexes + (a + b) == c.indexes + a + b;
  }

  /** Moving past both children is moving past the node. */
  lemma PassedBoth(hash: (Hash, Hash) -> Hash, txids: seq<Hash>, marks: seq<bool>, h: nat, pos: nat, c: Cursor)
    requires |marks| == |txids| && h > 0 && IsNode(|txids|, h, pos) && AnyMatch(marks, h, pos)
    ensures IsNode(|txids|, h - 1, 2 * pos)
    ensures var c1 := Passed(hash, txids, marks, h - 1, 2 * pos, c.(bitsUsed := c.bitsUsed + 1));
      Passed(hash, txids, marks, h, pos, c) ==
        if 2 * pos + 1 < Width(|txids|, h - 1) then
          var c2 := Passed(hash, txids, marks, h - 1, 2 * pos + 1, c1);
          c2.(bad := c2.bad || Twins(hash, txids, h, pos))
        else c1
  {
    hide First, Last, Width, Pow2, AnyMatch, Marked, CalcHash, Select;
    var n := |marks|;
    Children(n, h, pos);
    Ranges(n, h, pos);
    if 2 * pos + 1 < Width(n, h - 1) {
      FoundSplit(txids, marks, First(h, pos), Last(n, h - 1, 2 * pos), Last(n, h, pos), c);
    }
  }

  lemma PassedUses(hash: (Hash, Hash) -> Hash, txids: seq<Hash>, marks: seq<bool>, h: nat, pos: nat, c: Cursor)
    requires |marks| == |txids| && IsNode(|txids|, h, pos)
    ensures var p := Passed(hash, txids, marks, h, pos, c);
      && p.bitsUsed == c.bitsUsed + |Bits(marks, h, pos)|
      && p.hashesUsed == c.hashesUsed + |Hashes(hash, txids, marks, h, pos)|
  {
  }

  lemma InnerNode(hash: (Hash, Hash) -> Hash, txids: seq<Hash>, marks: seq<bool>, h: nat, pos: nat)
    requires |marks| == |txids| && h > 0 && IsNode(|txids|, h, pos) && AnyMatch(marks, h, pos)
    ensures IsNode(|txids|, h - 1, 2 * pos)
    ensures Bits(marks, h, pos) == [true] + Bits(marks, h - 1, 2 * pos) +
      (if 2 * pos + 1 < Width(|marks|, h - 1) then Bits(marks, h - 1, 2 * pos + 1) else [])
    ensures Hashes(hash, txids, marks, h, pos) == Hashes(hash, txids, marks, h - 1, 2 * pos) +
      (if 2 * pos + 1 < Width(|marks|, h - 1) then Hashes(hash, txids, marks, h - 1, 2 * pos + 1) else [])
  {
    Children(|txids|, h, pos);
  }

  /** Where the parts of the children stand when the part of an inner node stands at the cursor. */
  lemma BuiltParts(hash: (Hash, Hash) -> Hash, txids: seq<Hash>, marks: seq<bool>, h: nat, pos: nat,
                   bits: seq<bool>, hashes: seq<Hash>, c: Cursor)
    requires |marks| == |txids| && h > 0 && IsNode(|txids|, h, pos) && AnyMatch(marks, h, pos)
    requires PartAt(bits, c.bitsUsed, Bits(marks, h, pos))
    requires PartAt(hashes, c.hashesUsed, Hashes(hash, txids, marks, h, pos))
    ensures c.bitsUsed < |bits| && bits[c.bitsUsed] && IsNode(|txids|, h - 1, 2 * pos)
    ensures PartAt(bits, c.bitsUsed + 1, Bits(marks, h - 1, 2 * pos))
    ensures PartAt(hashes, c.hashesUsed, Hashes(hash, txids, marks, h - 1, 2 * pos))
    ensures 2 * pos + 1 < Width(|txids|, h - 1) ==>
      && PartAt(bits, c.bitsUsed + 1 + |Bits(marks, h - 1, 2 * pos)|, Bits(marks, h - 1, 2 * pos + 1))
      && PartAt(hashes, c.hashesUsed + |Hashes(hash, txids, marks, h - 1, 2 * pos)|,
                Hashes(hash, txids, marks, h - 1, 2 * pos + 1))
  {
    hide AnyMatch, Width, CalcHash, PartAt, Bits, Hashes;
    InnerNode(hash, txids, marks, h, pos);
    var both := 2 * pos + 1 < Width(|txids|, h - 1);
    var leftBits, leftHashes := Bits(marks, h - 1, 2 * pos), Hashes(hash, txids, marks, h - 1, 2 * pos);
    var rightBits := if both then Bits(marks, h - 1, 2 * pos + 1) else [];
    var rightHashes := if both then Hashes(hash, txids, marks, h - 1, 2 * pos + 1) else [];
    PartSplit(bits, c.bitsUsed, [true] + leftBits, rightBits);
    PartSplit(bits, c.bitsUsed, [true], leftBits);
    PartSplit(hashes, c.hashesUsed, leftHashes, rightHashes);
    PartHead(bits, c.bitsUsed, true);
  }

  /** Decoding what was encoded for a node yields its hash and its marked leaves, and moves past its part. */
  lemma {:induction false} ExtractBuilt(hash: (Hash, Hash) -> Hash, txids: seq<Hash>, marks: seq<bool>, h: nat,
                                        pos: nat, bits: seq<bool>, hashes: seq<Hash>, c: Cursor)
    requires |marks| == |txids| && IsNode(|txids|, h, pos)
    requires PartAt(bits, c.bitsUsed, Bits(marks, h, pos))
    requires PartAt(hashes, c.hashesUsed, Hashes(hash, txids, marks, h, pos))
    ensures Extract(hash, |txids|, bits, hashes, h, pos, c) ==
      Extracted(CalcHash(hash, txids, h, pos), Passed(hash, txids, marks, h, pos, c))
    decreases h
  {
    hide First, Last, Width, Pow2, AnyMatch, Passed, PartAt, Bits, Hashes;
    if h == 0 || !AnyMatch(marks, h, pos) {
      ExtractStored(hash, txids, marks, h, pos, bits, hashes, c);
    } else {
      BuiltParts(hash, txids, marks, h, pos, bits, hashes, c);
      PassedBoth(hash, txids, marks, h, pos, c);
      var c1 := c.(bitsUsed := c.bitsUsed + 1);
      ExtractBuilt(hash, txids, marks, h - 1, 2 * pos, bits, hashes, c1);
      if 2 * pos + 1 < Width(|txids|, h - 1) {
        PassedUses(hash, txids, marks, h - 1, 2 * pos, c1);
        var c2 := Passed(hash, txids, marks, h - 1, 2 * pos, c1);
        ExtractBuilt(hash, txids, marks, h - 1, 2 * pos + 1, bits, hashes, c2);
      }
    }
  }

  // Soundness.

  ghost predicate Injective(hash: (Hash, Hash) -> Hash) {
    forall a, b, c, d :: hash(a, b) == hash(c, d) ==> a == c && b == d
  }

  /** Everything found from the `from`-th match on is a transaction below the node, in order. */
  ghost predicate FoundBelow(txids: seq<Hash>, h: nat, pos: nat, c: Cursor, from: nat) {
    && |c.matches| == |c.indexes| && from <= |c.indexes|
    && (forall k :: from <= k < |c.indexes| ==>
          First(h, pos) <= c.indexes[k] < Last(|txids|, h, pos) && c.indexes[k] < |txids|
          && c.matches[k] == txids[c.indexes[k]])
    && Increasing(c.indexes[from..])
  }

  /** What was there before stays, and a failure stays. */
  lemma {:induction false} ExtractGrows(hash: (Hash, Hash) -> Hash, n: nat, bits: seq<bool>, hashes: seq<Hash>,
                                        h: nat, pos: nat, c: Cursor)
    ensures var e := Extract(hash, n, bits, hashes, h, pos, c).cursor;
      && c.matches <= e.matches && c.indexes <= e.indexes && (c.bad ==> e.bad)
      && (|c.matches| == |c.indexes| ==> |e.matches| == |e.indexes|)
    decreases h
  {
    if c.bitsUsed < |bits| && h > 0 && bits[c.bitsUsed] {
      var c1 := c.(bitsUsed := c.bitsUsed + 1);
      ExtractGrows(hash, n, bits, hashes, h - 1, 2 * pos, c1);
      var left := Extract(hash, n, bits, hashes, h - 1, 2 * pos, c1);
      ExtractGrows(hash, n, bits, hashes, h - 1, 2 * pos + 1, left.cursor);
    }
  }

  lemma FoundBoth(txids: seq<Hash>, h: nat, pos: nat, left: Cursor, right: Cursor, from: nat)
    requires h > 0 && IsNode(|txids|, h, pos) && 2 * pos + 1 < Width(|txids|, h - 1)
    requires FoundBelow(txids, h - 1, 2 * pos, left, from)
    requires FoundBelow(txids, h - 1, 2 * pos + 1, right, |left.indexes|)
    requires left.matches <= right.matches && left.indexes <= right.indexes
    ensures FoundBelow(txids, h, pos, right, from)
  {
    Ranges(|txids|, h, pos);
    var s, t := left.indexes[from..], right.indexes[|left.indexes|..];
    assert right.indexes[from..] == s + t;
    forall k | from <= k < |left.indexes|
      ensures right.indexes[k] == left.indexes[k] && right.matches[k] == left.matches[k] {}
    IncreasingConcat(s, t, First(h - 1, 2 * pos + 1));
  }

  lemma {:induction false} ExtractSound(hash: (Hash, Hash) -> Hash, txids: seq<Hash>, bits: seq<bool>,
                                        hashes: seq<Hash>, h: nat, pos: nat, c: Cursor)
    requires Injective(hash) && IsNode(|txids|, h, pos) && |c.matches| == |c.indexes|
    requires var e := Extract(hash, |txids|, bits, hashes, h, pos, c);
      !e.cursor.bad && e.hash == CalcHash(hash, txids, h, pos)
    ensures FoundBelow(txids, h, pos, Extract(hash, |txids|, bits, hashes, h, pos, c).cursor, |c.indexes|)
    decreases h
  {
    hide First, Last, Width, Pow2, FoundBelow;
    var n := |txids|;
    if h == 0 || !bits[c.bitsUsed] {
      StoredSound(hash, txids, bits, hashes, h, pos, c);
    } else {
      Children(n, h, pos);
      var c1 := c.(bitsUsed := c.bitsUsed + 1);
      var left := Extract(hash, n, bits, hashes, h - 1, 2 * pos, c1);
      ExtractGrows(hash, n, bits, hashes, h - 1, 2 * pos, c1);
      if 2 * pos + 1 < Width(n, h - 1) {
        var right := Extract(hash, n, bits, hashes, h - 1, 2 * pos + 1, left.cursor);
        ExtractGrows(hash, n, bits, hashes, h - 1, 2 * pos + 1, left.cursor);
        ExtractSound(hash, txids, bits, hashes, h - 1, 2 * pos, c1);
        ExtractSound(hash, txids, bits, hashes, h - 1, 2 * pos + 1, left.cursor);
        FoundBoth(txids, h, pos, left.cursor, right.cursor, |c.indexes|);
      } else {
        ExtractSound(hash, txids, bits, hashes, h - 1, 2 * pos, c1);
        FoundLeft(txids, h, pos, left.cursor, |c.indexes|);
      }
    }
  }

  lemma FoundLeft(txids: seq<Hash>, h: nat, pos: nat, left: Cursor, from: nat)
    requires h > 0 && IsNode(|txids|, h, pos) && !(2 * pos + 1 < Width(|txids|, h - 1))
    requires FoundBelow(txids, h - 1, 2 * pos, left, from)
    ensures FoundBelow(txids, h, pos, left, from)
  {
    Ranges(|txids|, h, pos);
  }

  lemma StoredSound(hash: (Hash, Hash) -> Hash, txids: seq<Hash>, bits: seq<bool>, hashes: seq<Hash>,
                    h: nat, pos: nat, c: Cursor)
    requires IsNode(|txids|, h, pos) && |c.matches| == |c.indexes| && c.bitsUsed < |bits|
    requires h == 0 || !bits[c.bitsUsed]
    requires var e := Extract(hash, |txids|, bits, hashes, h, pos, c);
      !e.cursor.bad && e.hash == CalcHash(hash, txids, h, pos)
    ensures FoundBelow(txids, h, pos, Extract(hash, |txids|, bits, hashes, h, pos, c).cursor, |c.indexes|)
  {
    var e := Extract(hash, |txids|, bits, hashes, h, pos, c);
    LeafWidth(|txids|);
    if h == 0 && bits[c.bitsUsed] {
      assert e.cursor.indexes[|c.indexes|..] == [pos];
    } else {
      assert e.cursor.indexes[|c.indexes|..] == [];
    }
  }

  // Size bounds.

  /** No more hashes than leaves, and at most one per level and marked leaf, plus one. */
  lemma {:induction false} HashesBound(hash: (Hash, Hash) -> Hash, txids: seq<Hash>, marks: seq<bool>, h: nat, pos: nat)
    requires |marks| == |txids| && IsNode(|txids|, h, pos)
    ensures First(h, pos) < Last(|txids|, h, pos)
    ensures 1 <= |Hashes(hash, txids, marks, h, pos)| <= Last(|txids|, h, pos) - First(h, pos)
    ensures |Hashes(hash, txids, marks, h, pos)| <=
      1 + |Marked(marks, First(h, pos), Last(|txids|, h, pos))| * h
    ensures |Hashes(hash, txids, marks, h, pos)| <= |Bits(marks, h, pos)|
    decreases h
  {
    hide First, Last, Width, Pow2, AnyMatch, Bits, Hashes, Marked;
    var n := |txids|;
    NonEmptyRange(n, h, pos);
    if h == 0 || !AnyMatch(marks, h, pos) {
      StoredNode(hash, txids, marks, h, pos);
    } else {
      InnerNode(hash, txids, marks, h, pos);
      HashesBound(hash, txids, marks, h - 1, 2 * pos);
      Ranges(n, h, pos);
      var lo, mid, hi := First(h, pos), Last(n, h - 1, 2 * pos), Last(n, h, pos);
      SomeMarked(marks, h, pos);
      if 2 * pos + 1 < Width(n, h - 1) {
        HashesBound(hash, txids, marks, h - 1, 2 * pos + 1);
        MarkedSplit(marks, lo, mid, hi);
        TwoBounds(|Marked(marks, lo, mid)|, |Marked(marks, mid, hi)|, h);
      } else {
        TwoBounds(|Marked(marks, lo, hi)|, 0, h);
      }
    }
  }

  /** The matched nodes with a single child at or below a node: each adds a bit but no hash. */
  ghost function OnlyChildren(marks: seq<bool>, h: nat, pos: nat): nat
    requires IsNode(|marks|, h, pos)
  {
    if h == 0 || !AnyMatch(marks, h, pos) then 0
    else
      Children(|marks|, h, pos);
      OnlyChildren(marks, h - 1, 2 * pos) +
      (if 2 * pos + 1 < Width(|marks|, h - 1) then OnlyChildren(marks, h - 1, 2 * pos + 1) else 1)
  }

  /**
   * The exact number of flag bits; twice the hashes less one bounds it just when no matched node
   * has a single child.
   */
  lemma {:induction false} BitsCount(hash: (Hash, Hash) -> Hash, txids: seq<Hash>, marks: seq<bool>, h: nat, pos: nat)
    requires |marks| == |txids| && IsNode(|txids|, h, pos)
    ensures |Bits(marks, h, pos)| == 2 * |Hashes(hash, txids, marks, h, pos)| - 1 + OnlyChildren(marks, h, pos)
    decreases h
  {
    hide Width, AnyMatch;
    if h > 0 && AnyMatch(marks, h, pos) {
      Children(|marks|, h, pos);
      BitsCount(hash, txids, marks, h - 1, 2 * pos);
      if 2 * pos + 1 < Width(|marks|, h - 1) {
        BitsCount(hash, txids, marks, h - 1, 2 * pos + 1);
      }
    }
  }

  /** Three transactions of which the last is matched have more flag bits than that. */
  lemma MoreBits(hash: (Hash, Hash) -> Hash, txids: seq<Hash>)
    requires |txids| == 3
    ensures var marks := [false, false, true];
      && Height(3, 0) == 2 && IsNode(3, 2, 0)
      && |Bits(marks, 2, 0)| > 2 * |Hashes(hash, txids, marks, 2, 0)| - 1
  {
    var marks := [false, false, true];
    assert Pow2(1) == 2 && Pow2(2) == 4;
    assert Width(3, 0) == 3 && Width(3, 1) == 2 && Width(3, 2) == 1;
    assert AnyMatch(marks, 2, 0) && AnyMatch(marks, 1, 1) by { assert marks[2]; }
    BitsCount(hash, txids, marks, 2, 0);
    assert OnlyChildren(marks, 1, 1) == 1 + OnlyChildren(marks, 0, 2);
    assert OnlyChildren(marks, 2, 0) >= 1;
  }

  lemma NonEmptyRange(n: nat, h: nat, pos: nat)
    requires IsNode(n, h, pos)
    ensures First(h, pos) < Last(n, h, pos) <= n
  {
    NodeHasLeaf(n, h, pos);
    assert (pos + 1) * Pow2(h) == pos * Pow2(h) + Pow2(h);
  }

  lemma StoredNode(hash: (Hash, Hash) -> Hash, txids: seq<Hash>, marks: seq<bool>, h: nat, pos: nat)
    requires |marks| == |txids| && IsNode(|txids|, h, pos) && (h == 0 || !AnyMatch(marks, h, pos))
    ensures Hashes(hash, txids, marks, h, pos) == [CalcHash(hash, txids, h, pos)]
    ensures Bits(marks, h, pos) == [AnyMatch(marks, h, pos)]
  {
  }

  lemma SomeMarked(marks: seq<bool>, h: nat, pos: nat)
    requires AnyMatch(marks, h, pos)
    ensures |Marked(marks, First(h, pos), Last(|marks|, h, pos))| >= 1
  {
    var p :| pos * Pow2(h) <= p < (pos + 1) * Pow2(h) && p < |marks| && marks[p];
    MarkedInRange(marks, First(h, pos), Last(|marks|, h, pos));
    assert p in Marked(marks, First(h, pos), Last(|marks|, h, pos));
  }

  lemma TwoBounds(a: nat, b: nat, h: nat)
    requires h > 0 && a + b >= 1
    ensures (1 + a * (h - 1)) + (1 + b * (h - 1)) <= 1 + (a + b) * h
  {
    assert a * (h - 1) == a * h - a && b * (h - 1) == b * h - b && (a + b) * h == a * h + b * h;
  }

  // The whole decoder.

  datatype Answer = Answer(root: Hash, matches: seq<Hash>, indexes: seq<nat>, bad: bool)

  /** `ExtractMatches`: the null root reports a malformed tree. The caller's index list is extended, not cleared. */
  function ExtractMatches(hash: (Hash, Hash) -> Hash, n: nat, bits: seq<bool>, hashes: seq<Hash>, bad: bool,
                          indexes: seq<nat>): Answer
  {
    if n == 0 || n > MAX_BLOCK_WEIGHT / MIN_TRANSACTION_WEIGHT || |hashes| > n || |bits| < |hashes| then
      Answer(0, [], indexes, bad)
    else
      var e := Extract(hash, n, bits, hashes, Height(n, 0), 0, Cursor(0, 0, bad, [], indexes));
      var c := e.cursor;
      var wellFormed := !c.bad && (c.bitsUsed + 7) / 8 == (|bits| + 7) / 8 && c.hashesUsed == |hashes|;
      Answer(if wellFormed then e.hash else 0, c.matches, c.indexes, c.bad)
  }

  lemma RootIsNode(n: nat)
    requires n > 0
    ensures IsNode(n, Height(n, 0), 0) && Width(n, Height(n, 0)) == 1
    ensures First(Height(n, 0), 0) == 0 && Last(n, Height(n, 0), 0) == n
  {
    var h := Height(n, 0);
    NodeHasLeaf(n, h, 0);
    NodeHasLeaf(n, h, 1);
  }

  function MerkleRoot(hash: (Hash, Hash) -> Hash, txids: seq<Hash>): Hash
    requires txids != []
  {
    RootIsNode(|txids|);
    CalcHash(hash, txids, Height(|txids|, 0), 0)
  }

  /**
   * Authentication: a partial tree of any origin that claims the right number of
   * transactions and yields the block's non-null Merkle root can only name
   * transactions of the block, at their true positions, in order.
   */
  lemma Soundness(hash: (Hash, Hash) -> Hash, txids: seq<Hash>, bits: seq<bool>, hashes: seq<Hash>, bad: bool)
    requires Injective(hash) && txids != []
    requires var a := ExtractMatches(hash, |txids|, bits, hashes, bad, []);
      a.root != 0 && a.root == MerkleRoot(hash, txids)
    ensures var a := ExtractMatches(hash, |txids|, bits, hashes, bad, []);
      && |a.matches| == |a.indexes| && Increasing(a.indexes)
      && (forall k :: 0 <= k < |a.indexes| ==> a.indexes[k] < |txids| && txids[a.indexes[k]] == a.matches[k])
  {
    RootIsNode(|txids|);
    hide First, Last, Width, Pow2, Extract, CalcHash, Height, Injective, IsNode;
    ExtractSound(hash, txids, bits, hashes, Height(|txids|, 0), 0, Cursor(0, 0, bad, [], []));
    var e := Extract(hash, |txids|, bits, hashes, Height(|txids|, 0), 0, Cursor(0, 0, bad, [], []));
    assert e.cursor.indexes[0..] == e.cursor.indexes;
  }

  /**
   * Completeness: the encoding of a marked subset, with any padding of its bits
   * within the last byte, decodes to exactly the marked transactions, in order.
   * The decoder accepts it and yields the Merkle root exactly when no node it
   * descends into has two children of the same hash.
   */
  lemma RoundTrip(hash: (Hash, Hash) -> Hash, txids: seq<Hash>, marks: seq<bool>, padding: seq<bool>)
    requires 0 < |txids| == |marks| <= MAX_BLOCK_WEIGHT / MIN_TRANSACTION_WEIGHT
    requires IsNode(|txids|, Height(|txids|, 0), 0)
    requires var bits := Bits(marks, Height(|txids|, 0), 0); (|bits| + 7) / 8 == (|bits| + |padding| + 7) / 8
    ensures forall i :: i in Marked(marks, 0, |marks|) ==> i < |txids|
    ensures var h := Height(|txids|, 0);
      var accepted := NoTwins(hash, txids, marks, h, 0);
      ExtractMatches(hash, |txids|, Bits(marks, h, 0) + padding, Hashes(hash, txids, marks, h, 0), false, []) ==
        Answer(if accepted then MerkleRoot(hash, txids) else 0,
               Select(txids, Marked(marks, 0, |marks|)), Marked(marks, 0, |marks|), !accepted)
  {
    hide First, Last, Width, Pow2, Bits, Hashes, Marked, Select, Extract, CalcHash, Height, IsNode, NoTwins, AnyMatch;
    var h := Height(|txids|, 0);
    var bits, hashes := Bits(marks, h, 0), Hashes(hash, txids, marks, h, 0);
    MarkedInRange(marks, 0, |marks|);
    ExtractRoot(hash, txids, marks, h, padding);
    RootIsNode(|txids|);
    HashesBound(hash, txids, marks, h, 0);
  }

  lemma ExtractRoot(hash: (Hash, Hash) -> Hash, txids: seq<Hash>, marks: seq<bool>, h: nat, padding: seq<bool>)
    requires 0 < |txids| == |marks| && h == Height(|txids|, 0)
    requires IsNode(|txids|, h, 0)
    requires forall i :: i in Marked(marks, 0, |marks|) ==> i < |txids|
    ensures var bits, hashes := Bits(marks, h, 0), Hashes(hash, txids, marks, h, 0);
      var bad, marked := !NoTwins(hash, txids, marks, h, 0), Marked(marks, 0, |marks|);
      Extract(hash, |txids|, bits + padding, hashes, h, 0, Cursor(0, 0, false, [], [])) ==
        Extracted(MerkleRoot(hash, txids), Cursor(|bits|, |hashes|, bad, Select(txids, marked), marked))
  {
    hide First, Last, Width, Pow2, Bits, Hashes, Marked, Select, Extract, CalcHash, Height, IsNode, NoTwins, AnyMatch;
    var bits, hashes := Bits(marks, h, 0), Hashes(hash, txids, marks, h, 0);
    var c := Cursor(0, 0, false, [], []);
    RootIsNode(|txids|);
    assert (bits + padding)[0..|bits|] == bits;
    assert hashes[0..|hashes|] == hashes;
    ExtractBuilt(hash, txids, marks, h, 0, bits + padding, hashes, c);
    assert [] + Select(txids, Marked(marks, 0, |marks|)) == Select(txids, Marked(marks, 0, |marks|));
    assert [] + Marked(marks, 0, |marks|) == Marked(marks, 0, |marks|);
  }

  /** With distinct transactions and an injective hash, there are no twins. */
  lemma {:induction false} DistinctNodes(hash: (Hash, Hash) -> Hash, txids: seq<Hash>, h: nat, p: nat, q: nat)
    requires Injective(hash) && (forall i, j :: 0 <= i < j < |txids| ==> txids[i] != txids[j])
    requires IsNode(|txids|, h, p) && IsNode(|txids|, h, q) && p != q
    ensures CalcHash(hash, txids, h, p) != CalcHash(hash, txids, h, q)
    decreases h
  {
    if h == 0 {
      LeafWidth(|txids|);
    } else {
      Children(|txids|, h, p);
      Children(|txids|, h, q);
      DistinctNodes(hash, txids, h - 1, 2 * p, 2 * q);
    }
  }

  lemma {:induction false} DistinctMeansNoTwins(hash: (Hash, Hash) -> Hash, txids: seq<Hash>, marks: seq<bool>,
                                                h: nat, pos: nat)
    requires Injective(hash) && (forall i, j :: 0 <= i < j < |txids| ==> txids[i] != txids[j])
    requires |marks| == |txids| && IsNode(|txids|, h, pos)
    ensures NoTwins(hash, txids, marks, h, pos)
    decreases h
  {
    hide AnyMatch, Width;
    if h > 0 && AnyMatch(marks, h, pos) {
      Children(|txids|, h, pos);
      DistinctMeansNoTwins(hash, txids, marks, h - 1, 2 * pos);
      if 2 * pos + 1 < Width(|txids|, h - 1) {
        DistinctMeansNoTwins(hash, txids, marks, h - 1, 2 * pos + 1);
        DistinctNodes(hash, txids, h - 1, 2 * pos, 2 * pos + 1);
      }
    }
  }

  /** A block of two equal transactions: the honest tree that marks the first is rejected. */
  lemma TwinsAreRejected(hash: (Hash, Hash) -> Hash, a: Hash)
    ensures var txids, marks := [a, a], [true, false];
      && Height(2, 0) == 1 && IsNode(2, 1, 0)
      && var bits := Bits(marks, 1, 0) + seq(5, _ => false);
      && ExtractMatches(hash, 2, bits, Hashes(hash, txids, marks, 1, 0), false, []).root == 0
      && ExtractMatches(hash, 2, bits, Hashes(hash, txids, marks, 1, 0), false, []).bad
  {
    var txids, marks := [a, a], [true, false];
    TwinTree(hash, a);
    hide NoTwins, Bits, Hashes, Height, Width, ExtractMatches, Marked, Select;
    RoundTrip(hash, txids, marks, seq(5, _ => false));
  }

  lemma TwinTree(hash: (Hash, Hash) -> Hash, a: Hash)
    ensures Height(2, 0) == 1 && IsNode(2, 1, 0) && |Bits([true, false], 1, 0)| == 3
    ensures !NoTwins(hash, [a, a], [true, false], 1, 0)
  {
    var txids, marks := [a, a], [true, false];
    TwoLeaves();
    hide Width, Pow2, Height;
    assert AnyMatch(marks, 1, 0) by { AnyFirst(marks); }
    hide AnyMatch;
    LeafHash(hash, txids, 0);
    LeafHash(hash, txids, 1);
    hide CalcHash;
    assert Twins(hash, txids, 1, 0);
    StoredNode(hash, txids, marks, 0, 0);
    StoredNode(hash, txids, marks, 0, 1);
    InnerNode(hash, txids, marks, 1, 0);
  }

  lemma TwoLeaves()
    ensures Width(2, 0) == 2 && Width(2, 1) == 1 && Height(2, 0) == 1 && Pow2(1) == 2
  {
    assert Pow2(1) == 2;
    assert Width(2, 0) == 2 && Width(2, 1) == 1;
  }

  lemma AnyFirst(marks: seq<bool>)
    requires marks != [] && marks[0] && Pow2(1) == 2
    ensures AnyMatch(marks, 1, 0)
  {
    assert 0 * Pow2(1) <= 0 < (0 + 1) * Pow2(1);
  }

  lemma LeafHash(hash: (Hash, Hash) -> Hash, txids: seq<Hash>, pos: nat)
    requires IsNode(|txids|, 0, pos)
    ensures pos < |txids| && CalcHash(hash, txids, 0, pos) == txids[pos]
  {
    LeafWidth(|txids|);
  }
}
