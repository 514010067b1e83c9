/**
 * The request for the transactions of a block by index: indexes travel as
 * distances from one to the next.
 */
module BlockRequest {
  import opened Arithmetic
  import opened Common

  ghost predicate Increasing(s: seq<nat>) {
    forall i, j :: 0 <= i < j < |s| ==> s[i] < s[j]
  }

  /** The unsigned 64-bit distance of `x` from the index before it. */
  function Distance(before: seq<nat>, x: nat): nat {
    if before == [] then x else (x - (before[|before| - 1] + 1)) % TWO_64
  }

  /** The distances that are written. */
  function Distances(ix: seq<nat>): (d: seq<nat>)
    ensures |d| == |ix|
  {
    if ix == [] then []
    else
      var n := |ix| - 1;
      Distances(ix[..n]) + [Distance(ix[..n], ix[n])]
  }

  method Write(ix: seq<nat>) returns (d: seq<nat>)
    requires forall i :: 0 <= i < |ix| ==> ix[i] <= MAX_UINT16
    ensures d == Distances(ix)
  {
    d := [];
    for i := 0 to |ix|
      invariant d == Distances(ix[..i])
    {
      assert ix[..i + 1][..i] == ix[..i];
      var index := (ix[i] - (if i == 0 then 0 else ix[i - 1] + 1)) % TWO_64;
      d := d + [index];
    }
    assert ix[..|ix|] == ix;
  }

  /** The index after `r` at distance `d`; the running offset is kept in 16 bits. */
  function Next(r: seq<nat>, d: nat): nat {
    d + (if r == [] then 0 else (r[|r| - 1] + 1) % 0x1_0000)
  }

  /** What is read from distances; `None` stands for the exception. */
  function Indexes(d: seq<nat>): (r: Option<seq<nat>>)
    ensures r.Some? ==> |r.value| == |d| && forall i :: 0 <= i < |d| ==> r.value[i] <= MAX_UINT16
  {
    if d == [] then Some([])
    else
      var n := |d| - 1;
      match Indexes(d[..n])
      case None => None
      case Some(r) => if Next(r, d[n]) > MAX_UINT16 then None else Some(r + [Next(r, d[n])])
  }

  lemma {:induction false} IndexesFit(d: seq<nat>, i: nat)
    requires i < |d| && d[i] > MAX_UINT16
    ensures Indexes(d) == None
  {
    var n := |d| - 1;
    if i < n {
      IndexesFit(d[..n], i);
    }
  }

  lemma {:induction false} IndexesPrefix(d: seq<nat>, i: nat)
    requires i <= |d| && Indexes(d[..i]) == None
    ensures Indexes(d) == None
  {
    if i == |d| {
      assert d[..i] == d;
    } else {
      var n := |d| - 1;
      assert d[..n][..i] == d[..i];
      IndexesPrefix(d[..n], i);
    }
  }

  /** Reads `size` distances, a thousand at a time, and turns them into indexes. */
  method Read(stream: seq<nat>, size: nat) returns (r: Option<seq<nat>>)
    ensures r == if size <= |stream| then Indexes(stream[..size]) else None
  {
    var indexes: seq<nat> := [];
    while |indexes| < size
      invariant |indexes| <= size && indexes <= stream
      invariant forall i :: 0 <= i < |indexes| ==> indexes[i] <= MAX_UINT16
    {
      var chunk := if 1000 + |indexes| < size then 1000 + |indexes| else size;
      while |indexes| < chunk
        invariant |indexes| <= chunk && indexes <= stream
        invariant forall i :: 0 <= i < |indexes| ==> indexes[i] <= MAX_UINT16
      {
        var i := |indexes|;
        if i == |stream| {
          return None;
        }
        if stream[i] > MAX_UINT16 {
          if size <= |stream| {
            IndexesFit(stream[..size], i);
          }
          return None;
        }
        indexes := indexes + [stream[i]];
      }
    }
    assert indexes == stream[..size];
    r := Accumulate(indexes);
  }

  lemma Untouched(s: seq<nat>, d: seq<nat>, j: nat)
    requires |s| == |d| && j < |d| && s[j..] == d[j..]
    ensures s[j] == d[j] && s[j + 1..] == d[j + 1..]
  {
    assert s[j..][0] == s[j] && d[j..][0] == d[j];
    assert s[j + 1..] == s[j..][1..] && d[j + 1..] == d[j..][1..];
  }

  /** The second loop of reading: distances become indexes in place. */
  method Accumulate(d: seq<nat>) returns (r: Option<seq<nat>>)
    requires forall i :: 0 <= i < |d| ==> d[i] <= MAX_UINT16
    ensures r == Indexes(d)
  {
    hide Indexes;
    IndexesNone();
    var indexes, offset := d, 0;
    for j := 0 to |d|
      invariant |indexes| == |d| && indexes[j..] == d[j..]
      invariant Indexes(d[..j]) == Some(indexes[..j])
      invariant offset == if j == 0 then 0 else (indexes[j - 1] + 1) % 0x1_0000
    {
      Untouched(indexes, d, j);
      IndexesLast(d[..j], d[j]);
      assert d[..j + 1] == d[..j] + [d[j]];
      if indexes[j] + offset > MAX_UINT16 {
        IndexesPrefix(d, j + 1);
        return None;
      }
      ghost var was := indexes;
      indexes := indexes[j := indexes[j] + offset];
      assert indexes[..j + 1] == was[..j] + [indexes[j]];
      assert indexes[j + 1..] == was[j + 1..];
      offset := (indexes[j] + 1) % 0x1_0000;
    }
    assert d[..|d|] == d && indexes[..|d|] == indexes;
    r := Some(indexes);
  }

  lemma DistanceBack(before: seq<nat>, x: nat)
    requires x <= MAX_UINT16 && (before != [] ==> before[|before| - 1] < x)
    ensures Next(before, Distance(before, x)) == x
  {
  }

  lemma IncreasingPrefix(s: seq<nat>, n: nat)
    requires Increasing(s) && n <= |s|
    ensures Increasing(s[..n])
    ensures 0 < n < |s| ==> s[n - 1] < s[n]
  {
    assert forall i, j :: 0 <= i < j < n ==> s[i] < s[j];
  }

  lemma DistancesLast(ix: seq<nat>)
    requires ix != []
    ensures var n := |ix| - 1; Distances(ix) == Distances(ix[..n]) + [Distance(ix[..n], ix[n])]
  {
  }

  lemma IndexesNone()
    ensures Indexes([]) == Some([])
  {
  }

  lemma IndexesLast(d: seq<nat>, x: nat)
    ensures Indexes(d + [x]) ==
      match Indexes(d)
      case None => None
      case Some(r) => if Next(r, x) > MAX_UINT16 then None else Some(r + [Next(r, x)])
  {
    assert (d + [x])[..|d|] == d;
  }

  /** Strictly increasing 16-bit indexes survive. */
  lemma {:induction false} RoundTrip(ix: seq<nat>)
    requires Increasing(ix) && forall i :: 0 <= i < |ix| ==> ix[i] <= MAX_UINT16
    ensures Indexes(Distances(ix)) == Some(ix)
  {
    hide Distance, Next, Distances, Indexes, Increasing;
    if ix == [] {
      assert Distances(ix) == [];
      IndexesNone();
    } else {
      var n := |ix| - 1;
      IncreasingPrefix(ix, n);
      RoundTrip(ix[..n]);
      DistanceBack(ix[..n], ix[n]);
      DistancesLast(ix);
      IndexesLast(Distances(ix[..n]), Distance(ix[..n], ix[n]));
      assert ix == ix[..n] + [ix[n]];
    }
  }

  /** Indexes increase unless the largest one is followed by another. */
  lemma {:induction false} IncreasingResult(d: seq<nat>)
    requires Indexes(d).Some?
    ensures var r := Indexes(d).value; Increasing(r) <==> forall i :: 0 <= i < |r| - 1 ==> r[i] != MAX_UINT16
  {
    var r := Indexes(d).value;
    if d != [] {
      var n := |d| - 1;
      IncreasingResult(d[..n]);
      var q := Indexes(d[..n]).value;
      assert r[..n] == q;
      assert forall i :: 0 <= i < n ==> r[i] == q[i];
      if n > 0 {
        if r[n - 1] == MAX_UINT16 {
          assert !(r[n - 1] < r[n]);
        } else {
          assert r[n] > r[n - 1] == q[n - 1];
          if Increasing(r) {
            assert forall i, j :: 0 <= i < j < n ==> r[i] < r[j];
            assert Increasing(q);
          }
        }
      }
    }
  }

  function Total(d: seq<nat>): nat {
    if d == [] then 0 else Total(d[..|d| - 1]) + d[|d| - 1]
  }

  /** Until the offset wraps, an index is the sum of the distances up to it and the number of indexes before it. */
  lemma {:induction false} IndexIsTotal(d: seq<nat>, k: nat)
    requires Indexes(d).Some? && k < |d|
    requires forall i :: 0 <= i < k ==> Indexes(d).value[i] != MAX_UINT16
    ensures Indexes(d).value[k] == Total(d[..k + 1]) + k
  {
    var n := |d| - 1;
    var r, q := Indexes(d).value, Indexes(d[..n]).value;
    assert r[..n] == q;
    if k < n {
      assert d[..n][..k + 1] == d[..k + 1] && forall i :: 0 <= i <= k ==> q[i] == r[i];
      IndexIsTotal(d[..n], k);
    } else {
      assert d[..k + 1] == d;
      if k > 0 {
        assert d[..n][..n] == d[..n] && q[n - 1] == r[n - 1];
        IndexIsTotal(d[..n], n - 1);
      } else {
        assert d[..n] == [];
      }
    }
  }

  /** The index at `i` is the last one that 16 bits hold, according to the distances alone. */
  predicate ReachesEnd(d: seq<nat>, i: nat)
    requires i < |d|
  {
    Total(d[..i + 1]) + i == MAX_UINT16
  }

  /** An accepted message yields increasing indexes if and only if only its last index reaches the end of the range. */
  lemma ReadIncreasing(d: seq<nat>)
    requires Indexes(d).Some?
    ensures Increasing(Indexes(d).value) <==> forall i :: 0 <= i < |d| - 1 ==> !ReachesEnd(d, i)
  {
    hide Increasing, Total, Indexes;
    IncreasingResult(d);
    var r := Indexes(d).value;
    if Increasing(r) {
      forall i | 0 <= i < |d| - 1 ensures !ReachesEnd(d, i) {
        IndexIsTotal(d, i);
      }
    } else {
      FirstEnd(d, |d| - 1);
    }
  }

  /** If some index before `n` is the largest possible, the first such one is seen from the distances. */
  lemma {:induction false} FirstEnd(d: seq<nat>, n: nat)
    requires Indexes(d).Some? && n <= |d| && exists i :: 0 <= i < n && Indexes(d).value[i] == MAX_UINT16
    ensures exists i :: 0 <= i < n && ReachesEnd(d, i)
  {
    hide Indexes, Total;
    var r := Indexes(d).value;
    if i :| 0 <= i < n - 1 && r[i] == MAX_UINT16 {
      FirstEnd(d, n - 1);
    } else {
      IndexIsTotal(d, n - 1);
      assert ReachesEnd(d, n - 1);
    }
  }

  /** The offset wraps: after index 65535 the distance 0 leads to index 0. */
  lemma WrappedIndexes()
    ensures Indexes([65535, 0]) == Some([65535, 0]) && !Increasing([65535, 0])
  {
    IndexesNone();
    IndexesLast([], 65535);
    IndexesLast([65535], 0);
    assert [] + [65535] == [65535] && [65535] + [0] == [65535, 0];
    var s: seq<nat> := [65535, 0];
    assert s[0] > s[1];
  }
}
