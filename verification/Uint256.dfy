/** Unsigned big integers as arrays of 32-bit limbs that are changed in place. */
module Uint256 {
  import opened Arithmetic
  import opened Radix
  import opened Limbs

  /** Digit and carry of a limb that is worth `n`. */
  lemma CarryOut(n: nat, w: nat)
    ensures n % BASE * w + n / BASE * (BASE * w) == n * w
  {
    DivMod(n, BASE);
    Associative(n / BASE, BASE, w);
    var q, r := n / BASE * BASE, n % BASE;
    assert q * w + r * w == (q + r) * w;
  }

  lemma Distribute(a: int, b: int, c: int, w: int)
    ensures (a + b + c) * w == a * w + b * w + c * w
  {
  }

  lemma LimbProduct(x: nat, y: nat)
    ensures x * y >= 0
    ensures x < BASE && y < BASE ==> x * y <= 0xFFFF_FFFE_0000_0001
  {
    TimesMonotone(0, 0, x, y);
    if x < BASE && y < BASE {
      TimesMonotone(x, y, BASE - 1, BASE - 1);
    }
  }

  /** The product of two limbs, which leaves room for two carries in 64 bits. */
  function Times(x: nat, y: nat): (r: nat)
    ensures x < BASE && y < BASE ==> r <= 0xFFFF_FFFE_0000_0001
  {
    LimbProduct(x, y);
    x * y
  }

  /** One limb of an addition. */
  lemma AddStep(s: seq<nat>, was: seq<nat>, b: seq<nat>, i: nat, carry: nat)
    requires i < |s| && |s| == |was| == |b| && s[i] == was[i]
    requires Low(s, i) + carry * Weight(i) == Low(was, i) + Low(b, i)
    ensures var n := carry + was[i] + b[i];
      Low(s[i := n % BASE], i + 1) + n / BASE * Weight(i + 1) == Low(was, i + 1) + Low(b, i + 1)
  {
    var n := carry + was[i] + b[i];
    var t := s[i := n % BASE];
    LowSame(s, t, i);
    LowNext(t, i);
    LowNext(was, i);
    LowNext(b, i);
    WeightNext(i);
    CarryOut(n, Weight(i));
    Distribute(carry, was[i], b[i], Weight(i));
  }

  /** The first `i` limbs of a product and the carry. */
  ghost predicate Multiplied(s: seq<nat>, was: seq<nat>, b: nat, i: nat, carry: nat)
    requires i <= |s| && i <= |was|
  {
    Low(s, i) + carry * Weight(i) == Low(was, i) * b
  }

  lemma MulAlgebra(s: int, carry: int, w: int, l: int, b: int, x: int)
    requires s + carry * w == l * b
    ensures s + (carry + b * x) * w == (l + x * w) * b
  {
    Associative(b, x, w);
    assert (carry + b * x) * w == carry * w + b * x * w;
    assert (l + x * w) * b == l * b + b * (x * w);
  }

  /** One limb of a multiplication by a small number. */
  lemma MulStep(s: seq<nat>, was: seq<nat>, b: nat, i: nat, carry: nat)
    requires i < |s| == |was| && s[i] == was[i] && Multiplied(s, was, b, i, carry)
    ensures var n := carry + Times(b, was[i]); Multiplied(s[i := n % BASE], was, b, i + 1, n / BASE)
  {
    var n := carry + Times(b, was[i]);
    var t := s[i := n % BASE];
    LowSame(s, t, i);
    LowNext(t, i);
    LowNext(was, i);
    WeightNext(i);
    CarryOut(n, Weight(i));
    hide Low, Weight;
    MulAlgebra(Low(s, i), carry, Weight(i), Low(was, i), b, was[i]);
  }

  lemma MulStart(s: seq<nat>, b: nat)
    ensures Multiplied(s, s, b, 0, 0)
  {
  }

  lemma MulEnd(s: seq<nat>, was: seq<nat>, b: nat, carry: nat)
    requires |s| == |was| && AreLimbs(s) && Multiplied(s, was, b, |s|, carry)
    ensures Value(s) == Value(was) * b % Weight(|s|)
  {
    hide Low, Weight;
    LowBound(s, |s|);
    Reduced(Value(s), Weight(|s|), carry, Value(was) * b);
  }

  class Uint {
    const pn: array<nat>

    ghost predicate Valid()
      reads pn
    {
      AreLimbs(pn[..])
    }

    ghost function V(): (v: nat)
      reads pn
    {
      Value(pn[..])
    }

    /** How many different values there are. */
    ghost function Range(): nat {
      Weight(pn.Length)
    }

    lemma InRange()
      requires Valid()
      ensures V() < Range()
    {
      LowBound(pn[..], pn.Length);
    }

    constructor (width: nat)
      ensures Valid() && pn.Length == width && V() == 0 && fresh(pn)
    {
      pn := new nat[width](_ => 0);
      new;
      LowZeros(pn[..], width);
    }

    constructor Copy(a: Uint)
      requires a.Valid()
      ensures Valid() && pn.Length == a.pn.Length && V() == a.V() && pn[..] == a.pn[..] && fresh(pn)
    {
      var n := a.pn.Length;
      var limbs := a.pn[..];
      pn := new nat[n](i requires 0 <= i < |limbs| => limbs[i]);
      new;
      assert pn[..] == limbs;
    }

    /** `+=`; also when both sides are the same object. */
    method Add(b: Uint)
      requires Valid() && b.Valid() && pn.Length == b.pn.Length
      modifies pn
      ensures Valid() && V() == (old(V()) + old(b.V())) % Range()
    {
      hide Low, Weight;
      ghost var was, bs := pn[..], b.pn[..];
      var carry := 0;
      LowStart(was);
      LowStart(bs);
      LowStart(pn[..]);
      for i := 0 to pn.Length
        invariant Valid() && 0 <= carry < BASE
        invariant forall j :: i <= j < pn.Length ==> pn[j] == was[j] && b.pn[j] == bs[j]
        invariant Low(pn[..], i) + carry * Weight(i) == Low(was, i) + Low(bs, i)
      {
        ghost var s := pn[..];
        AddStep(s, was, bs, i, carry);
        var n := carry + pn[i] + b.pn[i];
        assert n < BASE * BASE;
        pn[i] := n % BASE;
        carry := n / BASE;
        assert pn[..] == s[i := pn[i]];
      }
      InRange();
      Reduced(V(), Range(), carry, Value(was) + Value(bs));
    }

    /** `*=` by a 32-bit number. */
    method MulSmall(b: nat)
      requires Valid() && b < BASE
      modifies pn
      ensures Valid() && V() == (old(V()) * b) % Range()
    {
      hide Multiplied, Value, Weight, Times;
      ghost var was := pn[..];
      var carry := 0;
      MulStart(was, b);
      for i := 0 to pn.Length
        invariant Valid() && 0 <= carry < BASE
        invariant forall j :: i <= j < pn.Length ==> pn[j] == was[j]
        invariant Multiplied(pn[..], was, b, i, carry)
      {
        ghost var s := pn[..];
        MulStep(s, was, b, i, carry);
        var n := carry + Times(b, pn[i]);
        assert n < BASE * BASE;
        pn[i] := n % BASE;
        carry := n / BASE;
        assert pn[..] == s[i := pn[i]];
      }
      MulEnd(pn[..], was, b, carry);
    }

    /** `++`, back to zero after the largest value. */
    method Increment()
      requires Valid()
      modifies pn
      ensures Valid() && V() == (old(V()) + 1) % Range()
    {
      hide Low, Weight;
      ghost var was := pn[..];
      var i := 0;
      LowStart(was);
      LowStart(pn[..]);
      WeightNext(0);
      while i < pn.Length
        invariant 0 <= i <= pn.Length && Valid()
        invariant forall j :: i <= j < pn.Length ==> pn[j] == was[j]
        invariant Low(pn[..], i) == 0 && Low(was, i) == Weight(i) - 1
      {
        ghost var s := pn[..];
        pn[i] := (pn[i] + 1) % BASE;
        assert pn[..] == s[i := pn[i]];
        IncrementStep(s, was, i, pn[..]);
        if pn[i] != 0 {
          Carryless(was, pn[..], i);
          break;
        }
        i := i + 1;
      }
      InRange();
      LowBound(was, pn.Length);
      if i < pn.Length {
        Reduced(V(), Range(), 0, Value(was) + 1);
      } else {
        Reduced(V(), Range(), 1, Value(was) + 1);
      }
    }

    /** `--`, to the largest value after zero. */
    method Decrement()
      requires Valid()
      modifies pn
      ensures Valid() && V() == (old(V()) - 1) % Range()
    {
      hide Low, Weight;
      ghost var was := pn[..];
      var i := 0;
      LowStart(was);
      LowStart(pn[..]);
      WeightNext(0);
      while i < pn.Length
        invariant 0 <= i <= pn.Length && Valid()
        invariant forall j :: i <= j < pn.Length ==> pn[j] == was[j]
        invariant Low(was, i) == 0 && Low(pn[..], i) == Weight(i) - 1
      {
        ghost var s := pn[..];
        pn[i] := (pn[i] + BASE - 1) % BASE;
        assert pn[..] == s[i := pn[i]];
        DecrementStep(s, was, i, pn[..]);
        if pn[i] != BASE - 1 {
          Carryless(pn[..], was, i);
          break;
        }
        i := i + 1;
      }
      InRange();
      LowBound(was, pn.Length);
      if i < pn.Length {
        Reduced(V(), Range(), 0, Value(was) - 1);
      } else {
        Reduced(V(), Range(), -1, Value(was) - 1);
      }
    }

    /** `~`. */
    method Complement() returns (r: Uint)
      requires Valid()
      ensures fresh(r) && fresh(r.pn) && r.Valid() && r.pn.Length == pn.Length && r.V() == Range() - 1 - V()
    {
      hide Low, Weight;
      r := new Uint(pn.Length);
      LowStart(pn[..]);
      LowStart(r.pn[..]);
      WeightNext(0);
      for i := 0 to pn.Length
        invariant r.Valid() && Low(r.pn[..], i) == Weight(i) - 1 - Low(pn[..], i)
      {
        ghost var s := r.pn[..];
        r.pn[i] := BASE - 1 - pn[i];
        LowSame(s, r.pn[..], i);
        LowNext(r.pn[..], i);
        LowNext(pn[..], i);
        WeightNext(i);
        ComplementLimb(pn[i], Weight(i));
      }
    }

    /** Unary `-`. */
    method Negate() returns (r: Uint)
      requires Valid()
      ensures fresh(r) && fresh(r.pn) && r.Valid() && r.pn.Length == pn.Length && r.V() == (Range() - V()) % Range()
    {
      r := Complement();
      r.Increment();
    }

    /** `-=`. */
    method Subtract(b: Uint)
      requires Valid() && b.Valid() && pn.Length == b.pn.Length
      modifies pn
      ensures Valid() && V() == (old(V()) - old(b.V())) % Range()
    {
      hide Value, Weight;
      var minus := b.Negate();
      ghost var v, w := V(), b.V();
      Add(minus);
      AddNegative(v, w, Range());
    }

    /** The sign of the difference. */
    method CompareTo(b: Uint) returns (sign: int)
      requires Valid() && b.Valid() && pn.Length == b.pn.Length
      ensures sign == if V() < b.V() then -1 else if V() > b.V() then 1 else 0
    {
      hide Low, Weight;
      var i := pn.Length - 1;
      while i >= 0
        invariant -1 <= i < pn.Length
        invariant forall j :: i < j < pn.Length ==> pn[j] == b.pn[j]
      {
        if pn[i] < b.pn[i] {
          HigherLimb(pn[..], b.pn[..], i);
          return -1;
        }
        if pn[i] > b.pn[i] {
          HigherLimb(b.pn[..], pn[..], i);
          return 1;
        }
        i := i - 1;
      }
      assert pn[..] == b.pn[..];
      return 0;
    }

    /** One row of a long multiplication: adds `d` times `b`, moved up by `j` limbs. */
    method AddRow(d: nat, b: Uint, j: nat) returns (ghost k: int)
      requires Valid() && b.Valid() && pn.Length == b.pn.Length && j < pn.Length && d < BASE && b.pn != pn
      modifies pn
      ensures Valid() && V() + k * Range() == old(V()) + d * Weight(j) * b.V()
    {
      hide RowDone, Value, Weight, Times;
      ghost var was, bs := pn[..], b.pn[..];
      var carry := 0;
      RowStart(was, d, bs, j);
      var i := 0;
      while i + j < pn.Length
        invariant 0 <= i && i + j <= pn.Length && Valid() && 0 <= carry < BASE
        invariant forall l :: i + j <= l < pn.Length ==> pn[l] == was[l]
        invariant RowDone(pn[..], was, d, bs, j, i, carry)
      {
        ghost var s := pn[..];
        RowStep(s, was, d, bs, j, i, carry);
        var n := carry + pn[i + j] + Times(d, b.pn[i]);
        assert n < BASE * BASE;
        pn[i + j] := n % BASE;
        carry := n / BASE;
        assert pn[..] == s[i + j := pn[i + j]];
        i := i + 1;
      }
      k := RowEnd(pn[..], was, d, bs, j, carry);
    }

    /** `*=`. */
    method Multiply(b: Uint)
      requires Valid() && b.Valid() && pn.Length == b.pn.Length
      modifies pn
      ensures Valid() && V() == (old(V()) * old(b.V())) % Range()
    {
      hide Low, Weight;
      ghost var was, bv := pn[..], b.V();
      var a := new Uint(pn.Length);
      ghost var q := 0;
      LowStart(was);
      for j := 0 to pn.Length
        invariant a.Valid() && fresh(a.pn) && pn[..] == was && b.V() == bv && b.Valid() && a.pn.Length == pn.Length
        invariant a.V() + q * Range() == Low(was, j) * bv
      {
        ghost var av := a.V();
        ghost var k := a.AddRow(pn[j], b, j);
        LowNext(was, j);
        NextRow(av, a.V(), q, k, Range(), Low(was, j), was[j] * Weight(j), bv);
        q := q + k;
      }
      a.InRange();
      Reduced(a.V(), Range(), q, Value(was) * bv);
      for i := 0 to pn.Length
        invariant forall l :: 0 <= l < i ==> pn[l] == a.pn[l]
        modifies pn
      {
        pn[i] := a.pn[i];
      }
      assert pn[..] == a.pn[..];
    }

    /** Bits are set in a limb, if there is such a limb; what goes beyond is counted in `q`. */
    method SetBits(j: nat, x: nat) returns (ghost q: int)
      requires Valid()
      requires j < pn.Length ==> Or(pn[j], x) == pn[j] + x && pn[j] + x < BASE
      modifies pn
      ensures Valid() && V() + q * Range() == old(V()) + x * Weight(j)
      ensures j < pn.Length ==> q == 0
      ensures forall l :: 0 <= l < pn.Length ==> pn[l] == if l == j then old(pn[l]) + x else old(pn[l])
    {
      hide Low, Weight;
      ghost var s := pn[..];
      if j < pn.Length {
        LowUpdate(s, j, s[j] + x, |s|);
        pn[j] := Or(pn[j], x);
        assert pn[..] == s[j := s[j] + x];
        q := 0;
      } else {
        WeightAdd(j - pn.Length, pn.Length);
        Associative(x, Weight(j - pn.Length), Weight(pn.Length));
        q := x * Weight(j - pn.Length);
      }
    }

    /** All limbs become zero. */
    method Clear()
      modifies pn
      ensures Valid() && V() == 0 && forall l :: 0 <= l < pn.Length ==> pn[l] == 0
    {
      for i := 0 to pn.Length
        invariant forall l :: 0 <= l < i ==> pn[l] == 0
      {
        pn[i] := 0;
      }
      LowZeros(pn[..], pn.Length);
    }

    /** One limb of a shift to the left, to limb `j` and the one above it. */
    method UpLimb(x: nat, j: nat, s: nat) returns (ghost q: int)
      requires Valid() && x < BASE && s < 32 && (j < pn.Length ==> pn[j] < Pow2(s))
      requires forall l :: j < l < pn.Length ==> pn[l] == 0
      modifies pn
      ensures Valid() && Moved(V(), q, Range(), old(V()), x, Pow2(s), Weight(j))
      ensures j + 1 < pn.Length ==> pn[j + 1] < Pow2(s)
      ensures forall l :: j + 1 < l < pn.Length ==> pn[l] == 0
    {
      hide Value, Weight, Pow2, Or, Moved, Above, Below;
      UpParts(x, s);
      var h, l := Above(x, s), Below(x, s);
      ghost var q1, q2 := 0, 0;
      ghost var v := V();
      ghost var v1 := v;
      if s != 0 {
        OrZero(h);
        q1 := SetBits(j + 1, h);
        v1 := V();
      }
      if j < pn.Length {
        OrBelow(x, pn[j], s);
      }
      q2 := SetBits(j, l);
      UpMoved(v, v1, V(), q1, q2, Range(), x, s, j);
      q := q1 + q2;
    }

    /** `<<=`. */
    method ShiftLeft(shift: nat)
      requires Valid()
      modifies pn
      ensures Valid() && V() == (old(V()) * Pow2(shift)) % Range()
    {
      hide Low, Weight, Pow2, Moved, ShiftedUp;
      var a := pn[..];
      Clear();
      var k, s := shift / 32, shift % 32;
      ghost var q := 0;
      ShiftedStart(a, Range(), s, k);
      for i := 0 to pn.Length
        invariant Valid() && (i + k < pn.Length ==> pn[i + k] < Pow2(s))
        invariant forall l :: i + k < l < pn.Length ==> pn[l] == 0
        invariant ShiftedUp(V(), q, Range(), a, i, s, k)
      {
        ghost var v := V();
        ghost var q' := UpLimb(a[i], i + k, s);
        ShiftedNext(v, q, V(), q', Range(), a, i, s, k);
        q := q + q';
      }
      InRange();
      ShiftedEnd(V(), q, Range(), a, s, k);
    }

    /** One limb of a shift to the right. */
    method DownLimb(x: nat, i: nat, k: nat, s: nat)
      requires Valid() && x < BASE && s < 32 && i < pn.Length
      requires i > k ==> pn[i - k - 1] < Pow2(32 - s)
      requires forall l :: i - k <= l < pn.Length && 0 <= l ==> pn[l] == 0
      modifies pn
      ensures Valid() && V() == old(V()) + Arrived(x, i, k, s)
      ensures i >= k ==> pn[i - k] < Pow2(32 - s)
      ensures forall l :: i + 1 - k <= l < pn.Length && 0 <= l ==> pn[l] == 0
    {
      hide Value, Weight, Pow2, Or, Kept, Dropped;
      ghost var v := V();
      if i > k && s != 0 {
        OrDropped(x, pn[i - k - 1], s);
        ghost var q := SetBits(i - k - 1, Dropped(x, s));
      }
      if i >= k {
        OrZero(Kept(x, s));
        ghost var q := SetBits(i - k, Kept(x, s));
      }
      DroppedNone(x, s);
    }

    /** `>>=`. */
    method ShiftRight(shift: nat)
      requires Valid()
      modifies pn
      ensures Valid() && V() == old(V()) / Pow2(shift)
    {
      hide Low, Weight, Pow2, Arrived, ShiftedDown;
      var a := pn[..];
      Clear();
      var k, s := shift / 32, shift % 32;
      ghost var r := 0;
      DownStart(a, s, k);
      for i := 0 to pn.Length
        invariant Valid() && (i > k ==> pn[i - k - 1] < Pow2(32 - s))
        invariant forall l :: i - k <= l < pn.Length && 0 <= l ==> pn[l] == 0
        invariant ShiftedDown(V(), r, a, i, s, k)
      {
        ghost var v := V();
        DownLimb(a[i], i, k, s);
        r := DownNext(v, r, V(), a, i, s, k);
      }
      DownEnd(V(), r, a, s, k);
    }

    /** The position of the highest bit plus one, or zero. */
    method Bits() returns (n: nat)
      requires Valid()
      ensures HasBits(V(), n)
    {
      hide Low, Weight, Pow2, HasBits;
      var pos := pn.Length - 1;
      while pos >= 0
        invariant -1 <= pos < pn.Length
        invariant forall l :: pos < l < pn.Length ==> pn[l] == 0
      {
        if pn[pos] != 0 {
          var b := TopBit(pn[pos]);
          TopLimb(pn[..], pos, b);
          return 32 * pos + b + 1;
        }
        pos := pos - 1;
      }
      LowZeros(pn[..], pn.Length);
      NoBits();
      return 0;
    }

    /** One bit of a division: subtracts the shifted divisor if it fits. */
    method DivideRound(num: Uint, div: Uint, shift: nat, ghost n: nat, ghost d: nat)
      requires Valid() && num.Valid() && div.Valid() && num.pn != pn && div.pn != pn && num.pn != div.pn
      requires num.pn.Length == pn.Length && div.pn.Length == pn.Length && shift + 1 <= 32 * pn.Length
      requires Dividing(n, d, V(), num.V(), shift + 1) && LowClear(pn[..], shift + 1) && div.V() == d * Pow2(shift)
      modifies pn, num.pn
      ensures Valid() && num.Valid() && Dividing(n, d, V(), num.V(), shift) && LowClear(pn[..], shift)
    {
      hide Value, Weight, Pow2, Dividing, LowClear, Or;
      ghost var q, v := V(), num.V();
      ClearBit(pn[..], shift + 1);
      var sign := num.CompareTo(div);
      DivideStep(n, d, q, v, shift, sign >= 0);
      if sign >= 0 {
        num.InRange();
        SmallDifference(v, div.V(), Range());
        num.Subtract(div);
        ghost var s := pn[..];
        ghost var over := SetBits(shift / 32, Pow2(shift % 32));
        assert pn[..] == s[shift / 32 := s[shift / 32] + Pow2(shift % 32)];
        BitWeight(shift);
      }
    }

    /** `/=` by shifting and subtracting; false, with the value zero, stands for division by zero. */
    method Divide(b: Uint) returns (ok: bool)
      requires Valid() && b.Valid() && pn.Length == b.pn.Length
      modifies pn
      ensures Valid() && (ok <==> old(b.V()) != 0)
      ensures V() == if ok then Quotient(old(V()), old(b.V())) else 0
    {
      hide Value, Weight, Pow2, HasBits, Dividing, LowClear;
      var div := new Uint.Copy(b);
      var num := new Uint.Copy(this);
      ghost var n, d := num.V(), div.V();
      Clear();
      var numBits := num.Bits();
      var divBits := div.Bits();
      BitsOfZero(d, divBits);
      if divBits == 0 {
        return false;
      }
      if divBits > numBits {
        FewerBits(n, d, numBits, divBits);
        return true;
      }
      var shift := numBits - divBits;
      num.InRange();
      div.ShiftLeft(shift);
      DivideStart(n, d, numBits, divBits, pn.Length, pn[..]);
      while shift >= 0
        invariant -1 <= shift && shift + 1 <= 32 * pn.Length
        invariant Valid() && num.Valid() && div.Valid() && fresh(num.pn) && fresh(div.pn) && num.pn != div.pn
        invariant num.pn.Length == pn.Length && div.pn.Length == pn.Length
        invariant Dividing(n, d, V(), num.V(), shift + 1) && LowClear(pn[..], shift + 1)
        invariant shift >= 0 ==> div.V() == d * Pow2(shift)
      {
        DivideRound(num, div, shift, n, d);
        HalfOf(d, shift);
        div.ShiftRight(1);
        shift := shift - 1;
      }
      DivideEnd(n, d, V(), num.V());
      ok := true;
    }
  }

  lemma BitsOfZero(v: nat, n: nat)
    requires HasBits(v, n)
    ensures n == 0 <==> v == 0
  {
  }

  lemma FewerBits(n: nat, d: nat, nb: nat, db: nat)
    requires HasBits(n, nb) && HasBits(d, db) && db > nb
    ensures d > 0 && Quotient(n, d) == 0
  {
    Pow2Monotone(nb, db - 1);
    hide Pow2;
    assert n < d by {
      if nb == 0 {
        assert n == 0;
      }
    }
    DivUnique(n, d, 0, n);
  }

  /** The state of a division: quotient so far, rest, and how many bits are still to come. */
  ghost predicate Dividing(n: nat, d: nat, q: nat, rest: nat, e: nat) {
    q * d + rest == n && rest < d * Pow2(e)
  }

  /** The bits below `e` are zero. */
  ghost predicate LowClear(s: seq<nat>, e: nat) {
    && (forall l :: 0 <= l < e / 32 && l < |s| ==> s[l] == 0)
    && (e / 32 < |s| ==> s[e / 32] % Pow2(e % 32) == 0)
  }

  lemma DivideStart(n: nat, d: nat, nb: nat, db: nat, width: nat, s: seq<nat>)
    requires HasBits(n, nb) && HasBits(d, db) && 0 < db <= nb && n < Weight(width) && |s| == width
    requires forall l :: 0 <= l < |s| ==> s[l] == 0
    ensures var shift := nb - db;
      && shift + 1 <= 32 * width && d * Pow2(shift) < Weight(width)
      && d * Pow2(shift) % Weight(width) == d * Pow2(shift)
      && Dividing(n, d, 0, n, shift + 1) && LowClear(s, shift + 1)
  {
    var shift := nb - db;
    WeightIsPow2(width);
    if nb > 32 * width {
      Pow2Monotone(32 * width, nb - 1);
    }
    Pow2Monotone(nb, 32 * width);
    Pow2Add(db, shift);
    Pow2Add(db - 1, shift + 1);
    hide Weight, Pow2;
    TimesStrict(d, Pow2(db), Pow2(shift));
    TimesMonotone(Pow2(db - 1), Pow2(shift + 1), d, Pow2(shift + 1));
    SmallMod(d * Pow2(shift), Weight(width));
    ZeroMod(Pow2((shift + 1) % 32));
  }

  lemma ZeroMod(m: nat)
    requires m > 0
    ensures 0 % m == 0
  {
  }

  lemma TimesStrict(a: nat, b: nat, c: nat)
    requires a < b && c > 0
    ensures 0 <= a * c < b * c
  {
  }

  lemma SmallDifference(v: nat, w: nat, m: nat)
    requires v < m
    ensures w <= v ==> (v - w) % m == v - w
  {
    if w <= v {
      SmallMod(v - w, m);
    }
  }

  /** The next bit can be set, and is above all bits still to come. */
  lemma ClearBit(s: seq<nat>, e: nat)
    requires AreLimbs(s) && LowClear(s, e) && 0 < e <= 32 * |s|
    ensures var j, p := (e - 1) / 32, Pow2((e - 1) % 32);
      && j < |s| && Or(s[j], p) == s[j] + p < BASE
      && LowClear(s, e - 1) && LowClear(s[j := s[j] + p], e - 1)
  {
    var j, b := (e - 1) / 32, (e - 1) % 32;
    var p := Pow2(b);
    hide Or, Pow2;
    if e % 32 == 0 {
      assert j + 1 == e / 32 && b == 31;
      OrZero(p);
      ModSame(p);
      ZeroMod(p);
      TopPower();
    } else {
      assert j == e / 32 && b + 1 == e % 32;
      EvenMultiple(s[j], b);
    }
  }

  lemma TopPower()
    ensures Pow2(31) < BASE
  {
    Pow2Of32();
    assert Pow2(32) == 2 * Pow2(31);
  }

  lemma ModSame(p: nat)
    requires p > 0
    ensures p % p == 0
  {
  }

  lemma EvenMultiple(x: nat, b: nat)
    requires x < BASE && b < 31 && x % Pow2(b + 1) == 0
    ensures var p := Pow2(b); Or(x, p) == x + p < BASE && x % p == 0 && (x + p) % p == 0
  {
    var p := Pow2(b);
    assert Pow2(b + 1) == 2 * p;
    Pow2Of32();
    Pow2Add(b + 1, 31 - b);
    hide Or, Pow2;
    var g := Multiple(x, 2 * p);
    OrCommutes(g, p, b);
    MultiplesBelow(g, p);
    RoomAbove(g, 2 * p, Pow2(31 - b));
  }

  lemma Multiple(x: nat, m: nat) returns (g: nat)
    requires m > 0 && x % m == 0
    ensures x == g * m
  {
    DivMod(x, m);
    QuotientPositive(x, m);
    g := x / m;
  }

  lemma MultiplesBelow(g: nat, p: nat)
    requires p > 0
    ensures g * (2 * p) % p == 0 && (g * (2 * p) + p) % p == 0
  {
    Halved(g, p);
    Associative(2, g, p);
    DivUnique(g * (2 * p), p, 2 * g, 0);
    OneMore(2 * g, p);
    DivUnique(g * (2 * p) + p, p, 2 * g + 1, 0);
  }

  lemma OrCommutes(g: nat, p: nat, b: nat)
    requires p == Pow2(b)
    ensures Or(g * (2 * p), p) == g * (2 * p) + p
  {
    OrDisjoint(g, p, b + 1);
  }

  /** A multiple below a multiple leaves room for one more. */
  lemma RoomAbove(g: nat, p: nat, m: nat)
    requires g * p < p * m && p > 0
    ensures g * p + p <= p * m
  {
    assert p * m == m * p;
    if g >= m {
      TimesMonotone(m, p, g, p);
    }
    TimesMonotone(g + 1, p, m, p);
    OneMore(g, p);
  }

  lemma BitWeight(shift: nat)
    ensures Pow2(shift % 32) * Weight(shift / 32) == Pow2(shift)
  {
    WeightIsPow2(shift / 32);
    Pow2Add(shift % 32, 32 * (shift / 32));
  }

  lemma DivideStep(n: nat, d: nat, q: nat, rest: nat, shift: nat, fits: bool)
    requires Dividing(n, d, q, rest, shift + 1) && (fits <==> rest >= d * Pow2(shift))
    ensures if fits then Dividing(n, d, q + Pow2(shift), rest - d * Pow2(shift), shift)
      else Dividing(n, d, q, rest, shift)
  {
    var p := Pow2(shift);
    assert Pow2(shift + 1) == 2 * p;
    hide Pow2;
    Halved(d, p);
    SumTimes(q, p, d);
    assert p * d == d * p;
  }

  lemma HalfOf(d: nat, shift: nat)
    ensures Pow2(1) == 2 && (shift > 0 ==> d * Pow2(shift) / 2 == d * Pow2(shift - 1))
  {
    if shift > 0 {
      Halved(d, Pow2(shift - 1));
    }
  }

  lemma DivideEnd(n: nat, d: nat, q: nat, rest: nat)
    requires d > 0 && Dividing(n, d, q, rest, 0)
    ensures q == Quotient(n, d)
  {
    DivUnique(n, d, q, rest);
  }

  /** `n` is the number of bits of `v`. */
  ghost predicate HasBits(v: nat, n: nat) {
    if n == 0 then v == 0 else Pow2(n - 1) <= v < Pow2(n)
  }

  lemma NoBits()
    ensures HasBits(0, 0)
  {
  }

  /** The highest bit of a limb, searched from the top. */
  method TopBit(x: nat) returns (b: nat)
    requires 0 < x < BASE
    ensures b < 32 && Pow2(b) <= x < Pow2(b + 1)
  {
    Pow2Of32();
    hide Pow2;
    b := 31;
    while b > 0
      invariant 0 <= b < 32 && x < Pow2(b + 1)
    {
      BitSet(x, b);
      if x / Pow2(b) % 2 == 1 {
        return;
      }
      b := b - 1;
    }
    Pow2Zero();
  }

  lemma BitSet(x: nat, b: nat)
    requires x < Pow2(b + 1)
    ensures x / Pow2(b) % 2 == 1 <==> Pow2(b) <= x
  {
    var p := Pow2(b);
    assert Pow2(b + 1) == 2 * p;
    hide Pow2;
    if x < p {
      DivUnique(x, p, 0, x);
    } else {
      DivUnique(x, p, 1, x - p);
    }
  }

  lemma TopLimb(s: seq<nat>, pos: nat, b: nat)
    requires pos < |s| && AreLimbs(s) && Pow2(b) <= s[pos] < Pow2(b + 1)
    requires forall l :: pos < l < |s| ==> s[l] == 0
    ensures HasBits(Value(s), 32 * pos + b + 1)
  {
    LowSplit(s, pos + 1, |s|);
    LowZeros(s[pos + 1..], |s| - pos - 1);
    LowNext(s, pos);
    LowBound(s, pos);
    WeightIsPow2(pos);
    Pow2Add(b, 32 * pos);
    Pow2Add(b + 1, 32 * pos);
    hide Low, Weight, Pow2;
    var w, x := Weight(pos), s[pos];
    assert Weight(pos + 1) * 0 == 0;
    TimesMonotone(Pow2(b), w, x, w);
    TimesMonotone(x + 1, w, Pow2(b + 1), w);
    OneMore(x, w);
  }

  /** The part of a limb that stays in its place when it is shifted to the right. */
  function Kept(x: nat, s: nat): (h: nat)
    requires x < BASE && s < 32
    ensures h < BASE && h < Pow2(32 - s)
  {
    DownParts(x, s);
    x / Pow2(s)
  }

  /** The part of a limb that moves to the one below when it is shifted to the right. */
  function Dropped(x: nat, s: nat): (l: nat)
    requires x < BASE && s < 32
    ensures l < BASE
  {
    DownParts(x, s);
    x * Pow2(32 - s) % BASE
  }

  lemma DownParts(x: nat, s: nat)
    requires x < BASE && s < 32
    ensures var t, u := Pow2(s), Pow2(32 - s);
      && t * u == BASE && 0 <= x / t < u && x / t < BASE && x * u % BASE == x % t * u
      && 0 <= x % t * u <= BASE - u && x == x / t * t + x % t
      && (s == 0 ==> x % t == 0)
  {
    hide Pow2;
    Complementary(s);
    var t, u := Pow2(s), Pow2(32 - s);
    Parts(x, u, t);
    DivMod(x, t);
    if s == 0 {
      ModOne(x);
    }
  }

  lemma Complementary(s: nat)
    requires s < 32
    ensures var t, u := Pow2(s), Pow2(32 - s);
      t * u == BASE && u * t == BASE && t <= BASE && u <= BASE && (s == 0 ==> t == 1)
  {
    Pow2Of32();
    Pow2Add(s, 32 - s);
    Pow2Add(32 - s, s);
    Pow2Monotone(32 - s, 32);
    Pow2Monotone(s, 32);
  }

  lemma ModOne(x: nat)
    ensures x % 1 == 0
  {
  }

  lemma OrDropped(x: nat, y: nat, s: nat)
    requires x < BASE && s < 32 && y < Pow2(32 - s)
    ensures Or(y, Dropped(x, s)) == y + Dropped(x, s) < BASE
  {
    hide Or;
    DownParts(x, s);
    OrDisjoint(x % Pow2(s), y, 32 - s);
  }

  lemma DroppedNone(x: nat, s: nat)
    requires x < BASE && s < 32
    ensures s == 0 ==> Dropped(x, s) == 0
  {
    DownParts(x, s);
  }

  /** What limb `i` contributes to a number shifted to the right. */
  ghost function Arrived(x: nat, i: nat, k: nat, s: nat): int
    requires x < BASE && s < 32
  {
    (if i > k then Dropped(x, s) * Weight(i - k - 1) else 0) + (if i >= k then Kept(x, s) * Weight(i - k) else 0)
  }

  /** The first `i` limbs of a number, shifted to the right, and what fell off the end. */
  ghost predicate ShiftedDown(v: int, r: int, a: seq<nat>, i: nat, s: nat, k: nat)
    requires i <= |a|
  {
    && v * (Pow2(s) * Weight(k)) + r == Low(a, i) && 0 <= r < Pow2(s) * Weight(k)
    && (i <= k ==> v == 0 && r < Weight(i))
  }

  lemma DownStart(a: seq<nat>, s: nat, k: nat)
    ensures ShiftedDown(0, 0, a, 0, s, k)
  {
    LowStart(a);
    WeightNext(0);
    hide Weight, Pow2;
    TimesMonotone(1, 1, Pow2(s), Weight(k));
    assert 0 * (Pow2(s) * Weight(k)) == 0;
  }

  lemma DownNext(v: int, r: int, v': int, a: seq<nat>, i: nat, s: nat, k: nat) returns (r': int)
    requires i < |a| && AreLimbs(a) && s < 32
    requires ShiftedDown(v, r, a, i, s, k) && v' == v + Arrived(a[i], i, k, s)
    ensures ShiftedDown(v', r', a, i + 1, s, k)
  {
    LowNext(a, i);
    DownParts(a[i], s);
    if i < k {
      r' := Low(a, i + 1);
      DownBelow(a, i, s, k);
    } else if i == k {
      r' := r + a[i] % Pow2(s) * Weight(k);
      WeightNext(0);
      hide Weight, Pow2, Low;
      DownAt(r, a[i], Kept(a[i], s), a[i] % Pow2(s), Pow2(s), Weight(k));
    } else {
      r' := r;
      WeightAdd(i - k, k);
      WeightNext(i - k - 1);
      hide Weight, Pow2, Low;
      DownAbove(v, a[i], Kept(a[i], s), a[i] % Pow2(s), Pow2(s), Pow2(32 - s), Weight(i - k - 1), Weight(k));
    }
  }

  lemma DownBelow(a: seq<nat>, i: nat, s: nat, k: nat)
    requires i < |a| && AreLimbs(a) && i < k
    ensures Low(a, i + 1) < Weight(i + 1) <= Pow2(s) * Weight(k)
  {
    LowBound(a, i + 1);
    PowExponent(BASE, i + 1, k);
    hide Weight, Pow2, Low;
    TimesMonotone(1, Weight(k), Pow2(s), Weight(k));
  }

  lemma DownAt(r: int, x: int, h: int, l: int, t: int, w: int)
    requires x == h * t + l && 0 <= l < t && 0 <= r < w
    ensures h * (t * w) + (r + l * w) == r + x * w
    ensures 0 <= r + l * w < t * w
  {
    SumTimes(h * t, l, w);
    Associative(h, t, w);
    TimesMonotone(l + 1, w, t, w);
    OneMore(l, w);
    assert l * w >= 0;
  }

  /** Limbs above the cut contribute exactly. */
  lemma DownAbove(v: int, x: int, h: int, l: int, t: int, u: int, w: int, wk: int)
    requires x == h * t + l && t * u == BASE
    ensures (v + l * u * w + h * (BASE * w)) * (t * wk) == v * (t * wk) + x * (BASE * w * wk)
  {
    var d := t * wk;
    SumTimes(v + l * u * w, h * (BASE * w), d);
    SumTimes(v, l * u * w, d);
    Rearranged(l * u, w, t, wk);
    Associative(l, u, t);
    assert u * t == BASE;
    Associative(l, BASE, w * wk);
    Associative(BASE, w, wk);
    Rearranged(h, BASE * w, t, wk);
    SumTimes(h * t, l, BASE * w * wk);
  }

  lemma DownEnd(v: int, r: int, a: seq<nat>, s: nat, k: nat)
    requires ShiftedDown(v, r, a, |a|, s, k)
    ensures v == Value(a) / Pow2(s + 32 * k)
  {
    hide Low, Weight, Pow2;
    WeightIsPow2(k);
    Pow2Add(s, 32 * k);
    DivUnique(Value(a), Pow2(s + 32 * k), v, r);
  }

  /** The part of a limb that moves to the next one when it is shifted to the left. */
  function Above(x: nat, s: nat): (h: nat)
    requires x < BASE && s < 32
    ensures h < BASE && h < Pow2(s)
  {
    UpParts(x, s);
    Pow2Of32();
    Pow2Monotone(s, 32);
    x / Pow2(32 - s)
  }

  /** The part of a limb that stays when it is shifted to the left. */
  function Below(x: nat, s: nat): (l: nat)
    requires x < BASE && s < 32
    ensures l < BASE
  {
    UpParts(x, s);
    x * Pow2(s) % BASE
  }

  lemma OrBelow(x: nat, y: nat, s: nat)
    requires x < BASE && s < 32 && y < Pow2(s)
    ensures Or(y, Below(x, s)) == y + Below(x, s) < BASE
  {
    hide Or;
    UpParts(x, s);
    OrDisjoint(x % Pow2(32 - s), y, s);
  }

  /** A limb `x`, scaled, was added at a weight; `q` times the range fell off the top. */
  ghost predicate Moved(v: int, q: int, m: int, was: int, x: nat, t: nat, w: nat) {
    v + q * m == was + x * t * w
  }

  lemma UpMoved(v: int, v1: int, v2: int, q1: int, q2: int, m: int, x: nat, s: nat, j: nat)
    requires x < BASE && s < 32
    requires if s == 0 then v1 == v && q1 == 0 else v1 + q1 * m == v + Above(x, s) * Weight(j + 1)
    requires v2 + q2 * m == v1 + Below(x, s) * Weight(j)
    ensures Moved(v2, q1 + q2, m, v, x, Pow2(s), Weight(j))
  {
    UpParts(x, s);
    WeightNext(j);
    hide Weight, Pow2;
    var h, l, w := Above(x, s), Below(x, s), Weight(j);
    SumTimes(h * BASE, l, w);
    Associative(h, BASE, w);
    SumTimes(q1, q2, m);
    assert s == 0 ==> q1 * m == 0;
  }

  /** The first `i` limbs of a number, shifted to the left, but for multiples of the range. */
  ghost predicate ShiftedUp(v: int, q: int, m: int, a: seq<nat>, i: nat, s: nat, k: nat)
    requires i <= |a|
  {
    v + q * m == Low(a, i) * (Pow2(s) * Weight(k))
  }

  lemma ShiftedStart(a: seq<nat>, m: int, s: nat, k: nat)
    ensures ShiftedUp(0, 0, m, a, 0, s, k)
  {
  }

  lemma ShiftedNext(v: int, q: int, v': int, q': int, m: int, a: seq<nat>, i: nat, s: nat, k: nat)
    requires i < |a| && ShiftedUp(v, q, m, a, i, s, k) && Moved(v', q', m, v, a[i], Pow2(s), Weight(i + k))
    ensures ShiftedUp(v', q + q', m, a, i + 1, s, k)
  {
    LowNext(a, i);
    WeightAdd(i, k);
    hide Low, Weight, Pow2;
    SumTimes(Low(a, i), a[i] * Weight(i), Pow2(s) * Weight(k));
    Rearranged(a[i], Weight(i), Pow2(s), Weight(k));
    SumTimes(q, q', m);
  }

  lemma ShiftedEnd(v: int, q: int, m: int, a: seq<nat>, s: nat, k: nat)
    requires m > 0 && 0 <= v < m && ShiftedUp(v, q, m, a, |a|, s, k)
    ensures v == Value(a) * Pow2(s + 32 * k) % m
  {
    hide Low, Weight, Pow2;
    WeightIsPow2(k);
    Pow2Add(s, 32 * k);
    Reduced(v, m, q, Value(a) * Pow2(s + 32 * k));
  }

  lemma OrZero(x: nat)
    ensures Or(0, x) == x
  {
  }

  /** A limb shifted left falls into a part that stays and one that moves to the next limb. */
  lemma UpParts(x: nat, s: nat)
    requires x < BASE && s < 32
    ensures var t, u := Pow2(s), Pow2(32 - s);
      && t * u == BASE && x * t == x / u * BASE + x % u * t
      && x * t % BASE == x % u * t && 0 <= x / u < t && 0 <= x % u * t <= BASE - t
      && (s == 0 ==> x / u == 0)
  {
    Pow2Of32();
    Pow2Add(s, 32 - s);
    var t, u := Pow2(s), Pow2(32 - s);
    hide Pow2;
    Parts(x, t, u);
    if s == 0 {
      assert t == 1 by { Pow2Zero(); }
    }
  }

  lemma Parts(x: nat, t: nat, u: nat)
    requires x < BASE && t > 0 && u > 0 && t * u == BASE
    ensures x * t == x / u * BASE + x % u * t
    ensures x * t % BASE == x % u * t && 0 <= x / u < t && 0 <= x % u * t <= BASE - t
  {
    DivMod(x, u);
    var q, r := x / u, x % u;
    SumTimes(q * u, r, t);
    Associative(q, u, t);
    assert u * t == t * u;
    TimesMonotone(r, t, u - 1, t);
    assert (u - 1) * t == u * t - t;
    QuotientBelow(x, u, t);
    DivUnique(x * t, BASE, q, r * t);
  }

  lemma Rearranged(x: int, a: int, t: int, b: int)
    ensures x * a * (t * b) == x * t * (a * b)
  {
    Associative(x * a, t, b);
    Associative(x, a, t);
    assert a * t == t * a;
    Associative(x, t, a);
    Associative(x * t, a, b);
  }

  /** The limbs below `i + j` of a row, and the carry. */
  ghost predicate RowDone(s: seq<nat>, was: seq<nat>, d: nat, b: seq<nat>, j: nat, i: nat, carry: nat)
    requires i + j <= |s| == |was| && i <= |b|
  {
    Low(s, i + j) + carry * Weight(i + j) == Low(was, i + j) + d * Weight(j) * Low(b, i)
  }

  lemma RowStart(s: seq<nat>, d: nat, b: seq<nat>, j: nat)
    requires j <= |s|
    ensures RowDone(s, s, d, b, j, 0, 0)
  {
    LowStart(b);
    hide Low, Weight;
    assert d * Weight(j) * 0 == 0;
  }

  lemma RowAlgebra(d: int, wj: int, l: int, x: int, wi: int)
    ensures d * wj * (l + x * wi) == d * wj * l + d * x * (wi * wj)
  {
    var e := d * wj;
    assert e * (l + x * wi) == e * l + e * (x * wi);
    Associative(e, x, wi);
    Associative(d, wj, x);
    Associative(d, x, wj);
    assert wj * x == x * wj;
    Associative(d * x, wj, wi);
    assert wj * wi == wi * wj;
  }

  lemma RowStep(s: seq<nat>, was: seq<nat>, d: nat, b: seq<nat>, j: nat, i: nat, carry: nat)
    requires i + j < |s| == |was| && i < |b| && s[i + j] == was[i + j] && RowDone(s, was, d, b, j, i, carry)
    ensures var n := carry + was[i + j] + Times(d, b[i]);
      RowDone(s[i + j := n % BASE], was, d, b, j, i + 1, n / BASE)
  {
    var m := i + j;
    var n := carry + was[m] + Times(d, b[i]);
    var t := s[m := n % BASE];
    LowSame(s, t, m);
    LowNext(t, m);
    LowNext(was, m);
    LowNext(b, i);
    WeightNext(m);
    WeightAdd(i, j);
    CarryOut(n, Weight(m));
    hide Low, Weight;
    RowAlgebra(d, Weight(j), Low(b, i), b[i], Weight(i));
    Distribute(carry, was[m], d * b[i], Weight(m));
  }

  lemma RowEndAlgebra(d: int, wj: int, low: int, t: int, wr: int, m: int)
    requires m == wr * wj
    ensures d * wj * (low + wr * t) == d * wj * low + d * t * m
  {
    RowAlgebra(d, wj, low, t, wr);
    assert wr * t == t * wr;
  }

  lemma RowEnd(s: seq<nat>, was: seq<nat>, d: nat, b: seq<nat>, j: nat, carry: nat) returns (k: int)
    requires j <= |s| == |was| == |b| && RowDone(s, was, d, b, j, |s| - j, carry)
    ensures Value(s) + k * Weight(|s|) == Value(was) + d * Weight(j) * Value(b)
  {
    var r := |s| - j;
    LowSplit(b, r, |b|);
    WeightAdd(r, j);
    hide Low, Weight;
    var t := Low(b[r..], j);
    RowEndAlgebra(d, Weight(j), Low(b, r), t, Weight(r), Weight(|s|));
    k := carry + d * t;
    SumTimes(carry, d * t, Weight(|s|));
  }

  lemma SumTimes(a: int, b: int, m: int)
    ensures (a + b) * m == a * m + b * m
  {
  }

  lemma NextRow(before: int, after: int, q: int, k: int, m: int, low: int, term: int, bv: int)
    requires before + q * m == low * bv && after + k * m == before + term * bv
    ensures after + (q + k) * m == (low + term) * bv
  {
    SumTimes(q, k, m);
    SumTimes(low, term, bv);
  }

  lemma IncrementStep(s: seq<nat>, was: seq<nat>, i: nat, t: seq<nat>)
    requires i < |s| == |was| && AreLimbs(was) && s[i] == was[i] && t == s[i := (s[i] + 1) % BASE]
    requires Low(s, i) == 0 && Low(was, i) == Weight(i) - 1
    ensures Low(t, i) == 0
    ensures t[i] != 0 ==> t[i] == was[i] + 1
    ensures t[i] == 0 ==> Low(t, i + 1) == 0 && Low(was, i + 1) == Weight(i + 1) - 1
  {
    LowSame(s, t, i);
    LowNext(t, i);
    LowNext(was, i);
    WeightNext(i);
  }

  lemma DecrementStep(s: seq<nat>, was: seq<nat>, i: nat, t: seq<nat>)
    requires i < |s| == |was| && AreLimbs(was) && s[i] == was[i] && t == s[i := (s[i] + BASE - 1) % BASE]
    requires Low(was, i) == 0 && Low(s, i) == Weight(i) - 1
    ensures Low(t, i) == Weight(i) - 1
    ensures t[i] != BASE - 1 ==> was[i] == t[i] + 1
    ensures t[i] == BASE - 1 ==> was[i] == 0 && Low(was, i + 1) == 0 && Low(t, i + 1) == Weight(i + 1) - 1
  {
    LowSame(s, t, i);
    LowNext(t, i);
    LowNext(was, i);
    WeightNext(i);
  }

  /** Numbers with the same limbs from `n` on differ by their limbs below. */
  lemma SameTail(s: seq<nat>, t: seq<nat>, n: nat)
    requires n <= |s| == |t| && forall j :: n <= j < |s| ==> s[j] == t[j]
    ensures Value(s) - Low(s, n) == Value(t) - Low(t, n)
  {
    LowSplit(s, n, |s|);
    LowSplit(t, n, |t|);
    assert s[n..] == t[n..];
  }

  lemma OneMore(x: int, w: int)
    ensures (x + 1) * w == x * w + w
  {
  }

  /** All limbs below `i` wrapped and limb `i` took the carry: the values differ by one. */
  lemma Carryless(was: seq<nat>, s: seq<nat>, i: nat)
    requires i < |s| == |was| && Low(s, i) == 0 && Low(was, i) == Weight(i) - 1 && s[i] == was[i] + 1
    requires forall j :: i < j < |s| ==> s[j] == was[j]
    ensures Value(s) == Value(was) + 1
  {
    hide Low, Weight;
    SameTail(s, was, i + 1);
    LowNext(s, i);
    LowNext(was, i);
    OneMore(was[i], Weight(i));
  }

  lemma ComplementLimb(x: int, w: int)
    ensures (BASE - 1 - x) * w == BASE * w - w - x * w
  {
  }

  lemma AddNegative(v: nat, w: nat, m: nat)
    requires m > 0
    ensures (v + (m - w) % m) % m == (v - w) % m
  {
    var q, r := (m - w) / m, (m - w) % m;
    DivMod(m - w, m);
    ModShift(v + r, v - w, 1 - q, m);
  }

  lemma ModShift(x: int, y: int, k: int, m: int)
    requires m > 0 && x == y + k * m
    ensures x % m == y % m
  {
    DivMod(y, m);
    var q, r := y / m, y % m;
    assert x == (q + k) * m + r;
    DivUnique(x, m, q + k, r);
  }

  /** A higher limb that is smaller makes the whole number smaller. */
  lemma HigherLimb(s: seq<nat>, t: seq<nat>, i: nat)
    requires i < |s| == |t| && AreLimbs(s) && AreLimbs(t) && s[i] < t[i]
    requires forall j :: i < j < |s| ==> s[j] == t[j]
    ensures Value(s) < Value(t)
  {
    hide Low, Weight;
    SameTail(s, t, i + 1);
    LowNext(s, i);
    LowNext(t, i);
    LowBound(s, i);
    var w := Weight(i);
    TimesMonotone(s[i] + 1, w, t[i], w);
    OneMore(s[i], w);
  }

  lemma LowStart(s: seq<nat>)
    ensures Low(s, 0) == 0
  {
  }
}
