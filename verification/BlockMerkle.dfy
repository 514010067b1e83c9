/**
 * The Merkle root as a block header has it: the list of ids is halved level by
 * level until one hash is left. It is the root of the tree that partial trees
 * are cut from.
 */
module BlockMerkle {
  import opened Arithmetic
  import opened MerkleModel

  /** The next level: neighbours are hashed in pairs, and a last one without a neighbour with itself. */
  function NextLevel(hash: (Hash, Hash) -> Hash, row: seq<Hash>): (r: seq<Hash>)
    ensures |r| == (|row| + 1) / 2
  {
    if row == [] then []
    else if |row| == 1 then [hash(row[0], row[0])]
    else [hash(row[0], row[1])] + NextLevel(hash, row[2..])
  }

  /** The hash that is left in the end, or the null hash of no ids at all. */
  function RootOf(hash: (Hash, Hash) -> Hash, row: seq<Hash>): Hash
    decreases |row|
  {
    if row == [] then 0 else if |row| == 1 then row[0] else RootOf(hash, NextLevel(hash, row))
  }

  lemma {:induction false} NextLevelAt(hash: (Hash, Hash) -> Hash, row: seq<Hash>, k: nat)
    requires 2 * k < |row|
    ensures k < |NextLevel(hash, row)|
    ensures NextLevel(hash, row)[k] == hash(row[2 * k], if 2 * k + 1 < |row| then row[2 * k + 1] else row[2 * k])
  {
    if k > 0 {
      NextLevelAt(hash, row[2..], k - 1);
    }
  }

  // The levels of the tree.

  function Row(hash: (Hash, Hash) -> Hash, txids: seq<Hash>, h: nat): (r: seq<Hash>)
    ensures |r| == Width(|txids|, h)
    ensures forall pos :: 0 <= pos < |r| ==> r[pos] == CalcHash(hash, txids, h, pos)
  {
    seq(Width(|txids|, h), pos requires 0 <= pos < Width(|txids|, h) => CalcHash(hash, txids, h, pos))
  }

  lemma LeafRow(hash: (Hash, Hash) -> Hash, txids: seq<Hash>)
    ensures Row(hash, txids, 0) == txids
  {
    LeafWidth(|txids|);
  }

  /** A level is half as wide as the one below it, rounded up. */
  lemma WidthAbove(n: nat, h: nat)
    ensures Width(n, h + 1) == (Width(n, h) + 1) / 2
  {
    hide Pow2, Width;
    var w, top := Width(n, h), Width(n, h + 1);
    LeftChild(n, h, top);
    if top > 0 {
      LeftChild(n, h, top - 1);
    }
  }

  /** A node exists exactly when its left child does. */
  lemma LeftChild(n: nat, h: nat, pos: nat)
    ensures pos < Width(n, h + 1) <==> 2 * pos < Width(n, h)
  {
    hide Width;
    NodeHasLeaf(n, h + 1, pos);
    NodeHasLeaf(n, h, 2 * pos);
    assert Pow2(h + 1) == 2 * Pow2(h);
    hide Pow2;
    Associative(pos, 2, Pow2(h));
  }

  lemma RowAbove(hash: (Hash, Hash) -> Hash, txids: seq<Hash>, h: nat)
    ensures NextLevel(hash, Row(hash, txids, h)) == Row(hash, txids, h + 1)
  {
    var row, above := Row(hash, txids, h), Row(hash, txids, h + 1);
    WidthAbove(|txids|, h);
    hide Width, NextLevel, Row;
    forall k | 0 <= k < |above| ensures NextLevel(hash, row)[k] == above[k] {
      NextLevelAt(hash, row, k);
    }
  }

  lemma FirstIsNode(n: nat, h: nat)
    requires n > 0
    ensures Width(n, h) > 0
  {
    NodeHasLeaf(n, h, 0);
  }

  /** From any level on, the root is the one node at the top. */
  lemma {:induction false} RootAbove(hash: (Hash, Hash) -> Hash, txids: seq<Hash>, h: nat)
    requires txids != [] && forall k :: 0 <= k < h ==> Width(|txids|, k) > 1
    ensures IsNode(|txids|, Height(|txids|, h), 0)
    ensures RootOf(hash, Row(hash, txids, h)) == CalcHash(hash, txids, Height(|txids|, h), 0)
    decreases Width(|txids|, h)
  {
    hide Width, Row, CalcHash;
    FirstIsNode(|txids|, h);
    if Width(|txids|, h) > 1 {
      WidthAbove(|txids|, h);
      RootAbove(hash, txids, h + 1);
      RowAbove(hash, txids, h);
    }
  }

  /** The root that partial trees lead to is the root in the block header. */
  lemma RootIsMerkleRoot(hash: (Hash, Hash) -> Hash, txids: seq<Hash>)
    requires txids != []
    ensures RootOf(hash, txids) == MerkleRoot(hash, txids)
  {
    hide RootOf, Row, CalcHash, Height;
    RootAbove(hash, txids, 0);
    LeafRow(hash, txids);
  }

  // Equal siblings.

  /** Two neighbours that form a pair are equal. */
  predicate EqualPair(row: seq<Hash>) {
    exists pos :: 0 <= pos < |row| - 1 && pos % 2 == 0 && row[pos] == row[pos + 1]
  }

  /** Two siblings of the tree are equal. */
  ghost predicate AnyTwins(hash: (Hash, Hash) -> Hash, txids: seq<Hash>) {
    exists h, pos :: h > 0 && IsNode(|txids|, h, pos) && Twins(hash, txids, h, pos)
  }

  /** Where no two siblings are equal, none are on the way to marked ids. */
  lemma {:induction false} NoneOnTheWay(hash: (Hash, Hash) -> Hash, txids: seq<Hash>, marks: seq<bool>, h: nat,
                                        pos: nat)
    requires !AnyTwins(hash, txids) && |marks| == |txids| && IsNode(|txids|, h, pos)
    ensures NoTwins(hash, txids, marks, h, pos)
    decreases h
  {
    hide AnyMatch, Width, CalcHash;
    if h > 0 && AnyMatch(marks, h, pos) {
      Children(|txids|, h, pos);
      NoneOnTheWay(hash, txids, marks, h - 1, 2 * pos);
      if 2 * pos + 1 < Width(|txids|, h - 1) {
        NoneOnTheWay(hash, txids, marks, h - 1, 2 * pos + 1);
      }
    }
  }

  /** Distinct ids have no equal siblings, if the hash has no collisions. */
  lemma DistinctHasNoTwins(hash: (Hash, Hash) -> Hash, txids: seq<Hash>)
    requires Injective(hash) && forall i, j :: 0 <= i < j < |txids| ==> txids[i] != txids[j]
    ensures !AnyTwins(hash, txids)
  {
    hide Width, CalcHash;
    forall h: nat, pos: nat | h > 0 && IsNode(|txids|, h, pos) ensures !Twins(hash, txids, h, pos) {
      Children(|txids|, h, pos);
      if 2 * pos + 1 < Width(|txids|, h - 1) {
        DistinctNodes(hash, txids, h - 1, 2 * pos, 2 * pos + 1);
      }
    }
  }

  ghost predicate TwinsUpTo(hash: (Hash, Hash) -> Hash, txids: seq<Hash>, top: nat) {
    exists h, pos :: 0 < h <= top && IsNode(|txids|, h, pos) && Twins(hash, txids, h, pos)
  }

  /** An equal pair of a level is a pair of equal siblings. */
  lemma PairsAreTwins(hash: (Hash, Hash) -> Hash, txids: seq<Hash>, h: nat)
    ensures TwinsUpTo(hash, txids, h + 1) <==> TwinsUpTo(hash, txids, h) || EqualPair(Row(hash, txids, h))
  {
    hide Width, CalcHash, Row;
    var row := Row(hash, txids, h);
    if EqualPair(row) {
      var p :| 0 <= p < |row| - 1 && p % 2 == 0 && row[p] == row[p + 1];
      var pos := p / 2;
      assert p == 2 * pos;
      LeftChild(|txids|, h, pos);
      assert IsNode(|txids|, h + 1, pos) && Twins(hash, txids, h + 1, pos);
    }
    if TwinsUpTo(hash, txids, h + 1) && !TwinsUpTo(hash, txids, h) {
      var k, pos :| 0 < k <= h + 1 && IsNode(|txids|, k, pos) && Twins(hash, txids, k, pos);
      assert k == h + 1;
      assert row[2 * pos] == row[2 * pos + 1];
    }
  }

  /** There are none above a level of one node. */
  lemma TwinsBelowTop(hash: (Hash, Hash) -> Hash, txids: seq<Hash>, top: nat)
    requires Width(|txids|, top) <= 1
    ensures AnyTwins(hash, txids) <==> TwinsUpTo(hash, txids, top)
  {
    hide Width, CalcHash;
    forall h, pos | h > top && IsNode(|txids|, h, pos) ensures !Twins(hash, txids, h, pos) {
      NarrowAbove(|txids|, top, h - 1);
    }
  }

  lemma {:induction false} NarrowAbove(n: nat, low: nat, high: nat)
    requires low <= high && Width(n, low) <= 1
    ensures Width(n, high) <= 1
    decreases high
  {
    hide Width;
    if low < high {
      NarrowAbove(n, low, high - 1);
      WidthAbove(n, high - 1);
    }
  }

  /** Whether two neighbours that form a pair are equal. */
  method HasEqualPair(row: seq<Hash>) returns (found: bool)
    ensures found == EqualPair(row)
  {
    found := false;
    var pos := 0;
    while pos + 1 < |row|
      invariant 0 <= pos && pos % 2 == 0
      invariant found <==> exists p :: 0 <= p < pos && p < |row| - 1 && p % 2 == 0 && row[p] == row[p + 1]
    {
      if row[pos] == row[pos + 1] {
        found := true;
      }
      pos := pos + 2;
    }
  }

  /** Hashes an even number of hashes in pairs. */
  method HashPairs(hash: (Hash, Hash) -> Hash, row: seq<Hash>) returns (r: seq<Hash>)
    requires |row| % 2 == 0
    ensures |r| == |row| / 2 && forall k :: 0 <= k < |r| ==> r[k] == hash(row[2 * k], row[2 * k + 1])
  {
    r := [];
    for i := 0 to |row| / 2
      invariant |r| == i && forall k :: 0 <= k < i ==> r[k] == hash(row[2 * k], row[2 * k + 1])
    {
      r := r + [hash(row[2 * i], row[2 * i + 1])];
    }
  }

  /** One round: a last hash without a neighbour is repeated, and the pairs are hashed. */
  method Halve(hash: (Hash, Hash) -> Hash, row: seq<Hash>) returns (r: seq<Hash>)
    ensures r == NextLevel(hash, row)
  {
    var even := row;
    if |row| % 2 == 1 {
      even := even + [row[|row| - 1]];
    }
    r := HashPairs(hash, even);
    forall k | 0 <= k < |r| ensures r[k] == NextLevel(hash, row)[k] {
      NextLevelAt(hash, row, k);
    }
  }

  /** The root of the ids of a block, and whether two siblings of the tree are equal. */
  method ComputeMerkleRoot(hash: (Hash, Hash) -> Hash, txids: seq<Hash>) returns (root: Hash, mutated: bool)
    ensures root == RootOf(hash, txids) && (txids == [] ==> root == 0)
    ensures txids != [] ==> root == MerkleRoot(hash, txids)
    ensures mutated <==> AnyTwins(hash, txids)
  {
    var row := txids;
    mutated := false;
    ghost var h := 0;
    LeafRow(hash, txids);
    hide NextLevel, Row, EqualPair, Width;
    while |row| > 1
      invariant row == Row(hash, txids, h) && RootOf(hash, row) == RootOf(hash, txids)
      invariant mutated <==> TwinsUpTo(hash, txids, h)
    {
      var found := HasEqualPair(row);
      mutated := mutated || found;
      PairsAreTwins(hash, txids, h);
      RowAbove(hash, txids, h);
      row := Halve(hash, row);
      h := h + 1;
    }
    TwinsBelowTop(hash, txids, h);
    if txids != [] {
      RootIsMerkleRoot(hash, txids);
    }
    root := if row == [] then 0 else row[0];
  }
}
