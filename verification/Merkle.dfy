/**
 * Partial Merkle trees as objects: building one from a block's transaction ids
 * and a mask, its wire form with packed flag bits, and extracting the matches.
 */
module Merkle {
  import opened ByteBits
  import opened Common
  import opened Arithmetic
  import opened BlockMerkle
  import opened MerkleModel

  // Packing flag bits, least significant bit first.

  predicate BitAt(bytes: seq<bv8>, p: nat)
    requires p < 8 * |bytes|
  {
    Test(bytes[p / 8], p % 8)
  }

  method Pack(bits: seq<bool>) returns (bytes: seq<bv8>)
    ensures |bytes| == (|bits| + 7) / 8
    ensures forall q :: 0 <= q < 8 * |bytes| ==> (BitAt(bytes, q) <==> q < |bits| && bits[q])
  {
    bytes := seq((|bits| + 7) / 8, i => 0);
    for p := 0 to |bits|
      invariant |bytes| == (|bits| + 7) / 8
      invariant forall q :: 0 <= q < 8 * |bytes| ==> (BitAt(bytes, q) <==> q < p && bits[q])
    {
      ghost var was := bytes;
      if bits[p] {
        bytes := bytes[p / 8 := SetBit(bytes[p / 8], p % 8)];
      }
      forall q | 0 <= q < 8 * |bytes| ensures BitAt(bytes, q) <==> q < p + 1 && bits[q] {
        assert BitAt(was, q) <==> q < p && bits[q];
        SetOne(was[p / 8], p % 8, q % 8);
      }
    }
  }

  method Unpack(bytes: seq<bv8>) returns (bits: seq<bool>)
    ensures |bits| == 8 * |bytes|
    ensures forall p :: 0 <= p < |bits| ==> (bits[p] <==> BitAt(bytes, p))
  {
    bits := [];
    for p := 0 to 8 * |bytes|
      invariant |bits| == p
      invariant forall q :: 0 <= q < p ==> (bits[q] <==> BitAt(bytes, q))
    {
      bits := bits + [bytes[p / 8] & Mask(p % 8) != 0];
    }
  }

  /** The serialized form. */
  datatype Wire = Wire(nTransactions: nat, hashes: seq<Hash>, bytes: seq<bv8>)

  class PartialMerkleTree {
    const hash: (Hash, Hash) -> Hash
    var nTransactions: nat
    var vBits: seq<bool>
    var vHash: seq<Hash>
    var bad: bool

    /** Whether a marked transaction lies below a node: the loop at the head of `TraverseAndBuild`. */
    method ParentOfMatch(h: nat, pos: nat, marks: seq<bool>) returns (found: bool)
      requires nTransactions == |marks|
      ensures found == AnyMatch(marks, h, pos)
    {
      found := false;
      var p := pos * Pow2(h);
      while p < (pos + 1) * Pow2(h) && p < nTransactions
        invariant pos * Pow2(h) <= p
        invariant found <==> exists q :: pos * Pow2(h) <= q < p && q < (pos + 1) * Pow2(h) && q < |marks| && marks[q]
        decreases nTransactions - p
      {
        if marks[p] {
          found := true;
        }
        p := p + 1;
      }
    }

    method TraverseAndBuild(h: nat, pos: nat, txids: seq<Hash>, marks: seq<bool>)
      requires nTransactions == |txids| == |marks| && IsNode(|txids|, h, pos)
      modifies this`vBits, this`vHash
      ensures vBits == old(vBits) + Bits(marks, h, pos)
      ensures vHash == old(vHash) + Hashes(hash, txids, marks, h, pos)
      decreases h
    {
      hide AnyMatch, Width, CalcHash, Bits, Hashes;
      var found := ParentOfMatch(h, pos, marks);
      vBits := vBits + [found];
      if h == 0 || !found {
        StoredNode(hash, txids, marks, h, pos);
        vHash := vHash + [CalcHash(hash, txids, h, pos)];
      } else {
        InnerNode(hash, txids, marks, h, pos);
        TraverseAndBuild(h - 1, 2 * pos, txids, marks);
        if 2 * pos + 1 < Width(nTransactions, h - 1) {
          TraverseAndBuild(h - 1, 2 * pos + 1, txids, marks);
        }
      }
    }

    static method TreeHeight(n: nat) returns (h: nat)
      ensures h == Height(n, 0)
    {
      h := 0;
      while Width(n, h) > 1
        invariant forall k :: 0 <= k < h ==> Width(n, k) > 1
        invariant Height(n, 0) == Height(n, h)
        decreases if Pow2(h) > n then 0 else n - Pow2(h) + 1
      {
        WideMeansSmall(n, h);
        h := h + 1;
      }
    }

    /** From the transaction ids of a block, which is never empty, and a mask. */
    constructor Build(hash: (Hash, Hash) -> Hash, txids: seq<Hash>, marks: seq<bool>)
      requires 0 < |txids| == |marks|
      ensures this.hash == hash && nTransactions == |txids| && !bad
      ensures IsNode(|txids|, Height(|txids|, 0), 0)
      ensures vBits == Bits(marks, Height(|txids|, 0), 0)
      ensures vHash == Hashes(hash, txids, marks, Height(|txids|, 0), 0)
    {
      this.hash := hash;
      nTransactions, vBits, vHash, bad := |txids|, [], [], false;
      new;
      hide Width, CalcHash, AnyMatch, Height;
      var h := TreeHeight(nTransactions);
      RootIsNode(nTransactions);
      TraverseAndBuild(h, 0, txids, marks);
    }

    constructor Receive(hash: (Hash, Hash) -> Hash, wire: Wire)
      ensures this.hash == hash && nTransactions == wire.nTransactions && vHash == wire.hashes && !bad
      ensures |vBits| == 8 * |wire.bytes| && forall p :: 0 <= p < |vBits| ==> (vBits[p] <==> BitAt(wire.bytes, p))
    {
      this.hash := hash;
      nTransactions, vHash, bad := wire.nTransactions, wire.hashes, false;
      vBits := [];
      new;
      vBits := Unpack(wire.bytes);
    }

    method Send() returns (wire: Wire)
      ensures wire.nTransactions == nTransactions && wire.hashes == vHash
      ensures |wire.bytes| == (|vBits| + 7) / 8
      ensures forall q :: 0 <= q < 8 * |wire.bytes| ==> (BitAt(wire.bytes, q) <==> q < |vBits| && vBits[q])
    {
      var bytes := Pack(vBits);
      wire := Wire(nTransactions, vHash, bytes);
    }

    method TraverseAndExtract(h: nat, pos: nat, c: Cursor) returns (x: Hash, d: Cursor)
      requires c.bad == bad
      modifies this`bad
      ensures Extracted(x, d) == Extract(hash, nTransactions, vBits, vHash, h, pos, c)
      ensures d.bad == bad
      decreases h
    {
      hide Width;
      d := c;
      if d.bitsUsed >= |vBits| {
        bad := true;
        return 0, d.(bad := true);
      }
      var parentOfMatch := vBits[d.bitsUsed];
      d := d.(bitsUsed := d.bitsUsed + 1);
      if h == 0 || !parentOfMatch {
        if d.hashesUsed >= |vHash| {
          bad := true;
          return 0, d.(bad := true);
        }
        x := vHash[d.hashesUsed];
        d := d.(hashesUsed := d.hashesUsed + 1);
        if h == 0 && parentOfMatch {
          d := d.(matches := d.matches + [x], indexes := d.indexes + [pos]);
        }
      } else {
        var left, right;
        left, d := TraverseAndExtract(h - 1, 2 * pos, d);
        if 2 * pos + 1 < Width(nTransactions, h - 1) {
          right, d := TraverseAndExtract(h - 1, 2 * pos + 1, d);
          if right == left {
            bad := true;
            d := d.(bad := true);
          }
        } else {
          right := left;
        }
        x := hash(left, right);
      }
    }

    method ExtractMatches(indexes: seq<nat>) returns (a: Answer)
      modifies this`bad
      ensures a == MerkleModel.ExtractMatches(hash, nTransactions, vBits, vHash, old(bad), indexes)
      ensures bad == a.bad
    {
      hide Width, Extract, Height;
      if nTransactions == 0 || nTransactions > MAX_BLOCK_WEIGHT / MIN_TRANSACTION_WEIGHT {
        return Answer(0, [], indexes, bad);
      }
      if |vHash| > nTransactions || |vBits| < |vHash| {
        return Answer(0, [], indexes, bad);
      }
      var h := TreeHeight(nTransactions);
      var root, c := TraverseAndExtract(h, 0, Cursor(0, 0, bad, [], indexes));
      if bad || (c.bitsUsed + 7) / 8 != (|vBits| + 7) / 8 || c.hashesUsed != |vHash| {
        return Answer(0, c.matches, c.indexes, bad);
      }
      return Answer(root, c.matches, c.indexes, bad);
    }
  }

  /**
   * Build, send, receive, extract: the receiver gets exactly the marked transactions, and the root
   * that the block header has, unless the check of the block finds equal siblings.
   */
  method Relay(hash: (Hash, Hash) -> Hash, txids: seq<Hash>, marks: seq<bool>) returns (a: Answer)
    requires 0 < |txids| == |marks| <= MAX_BLOCK_WEIGHT / MIN_TRANSACTION_WEIGHT
    ensures !AnyTwins(hash, txids) ==> !a.bad
    ensures a.root == if a.bad then 0 else RootOf(hash, txids)
    ensures |a.matches| == |a.indexes| && Increasing(a.indexes)
    ensures forall i :: i in a.indexes <==> 0 <= i < |txids| && marks[i]
    ensures forall k :: 0 <= k < |a.indexes| ==> a.indexes[k] < |txids| && a.matches[k] == txids[a.indexes[k]]
  {
    hide Width, Extract, Height, CalcHash, AnyMatch, NoTwins, Bits, Hashes, Pow2, BitAt, AnyTwins, RootOf;
    var sender := new PartialMerkleTree.Build(hash, txids, marks);
    var wire := sender.Send();
    var receiver := new PartialMerkleTree.Receive(hash, wire);
    ghost var bits := sender.vBits;
    ghost var padding := receiver.vBits[|bits|..];
    assert receiver.vBits == bits + padding;
    RoundTrip(hash, txids, marks, padding);
    RootIsMerkleRoot(hash, txids);
    MarkedInRange(marks, 0, |marks|);
    MarkedIncreasing(marks, 0, |marks|);
    if !AnyTwins(hash, txids) {
      NoneOnTheWay(hash, txids, marks, Height(|txids|, 0), 0);
    }
    a := receiver.ExtractMatches([]);
    assert forall k :: 0 <= k < |a.indexes| ==> a.indexes[k] in a.indexes;
  }
}
