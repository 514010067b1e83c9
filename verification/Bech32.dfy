/**
 * Bech32 text: a human-readable part, a separator, and values of five bits
 * with a checksum (section "Bech32" of BIP 173).
 */
module Bech32 {
  import opened Bech32Code
  import opened Common

  const SEPARATOR: int := 49

  // Values and symbols.

  predicate Values(vs: seq<nat>) {
    forall i :: 0 <= i < |vs| ==> vs[i] < 32
  }

  function ValOf(s: Symbol): (v: nat)
    ensures v < 32
  {
    (if s[0] then 1 else 0) + (if s[1] then 2 else 0) + (if s[2] then 4 else 0)
    + (if s[3] then 8 else 0) + (if s[4] then 16 else 0)
  }

  lemma ValOfSym(v: nat)
    requires v < 32
    ensures ValOf(SymOf(v)) == v
  {
  }

  lemma SymOfVal(s: Symbol)
    ensures SymOf(ValOf(s)) == s
  {
    var t := SymOf(ValOf(s));
    assert t[0] == s[0] && t[1] == s[1] && t[2] == s[2] && t[3] == s[3] && t[4] == s[4];
  }

  function Syms(vs: seq<nat>): (r: seq<Symbol>)
    requires Values(vs)
    ensures |r| == |vs| && forall i :: 0 <= i < |r| ==> r[i] == SymOf(vs[i])
  {
    if vs == [] then [] else Syms(vs[..|vs| - 1]) + [SymOf(vs[|vs| - 1])]
  }

  function Vals(ss: seq<Symbol>): (r: seq<nat>)
    ensures |r| == |ss| && Values(r) && forall i :: 0 <= i < |r| ==> r[i] == ValOf(ss[i])
  {
    if ss == [] then [] else Vals(ss[..|ss| - 1]) + [ValOf(ss[|ss| - 1])]
  }

  lemma SymsVals(ss: seq<Symbol>)
    ensures Syms(Vals(ss)) == ss
  {
    hide SymOf, ValOf;
    forall i | 0 <= i < |ss| ensures Syms(Vals(ss))[i] == ss[i] {
      SymOfVal(ss[i]);
    }
  }

  lemma ValsSyms(vs: seq<nat>)
    requires Values(vs)
    ensures Vals(Syms(vs)) == vs
  {
    hide SymOf, ValOf;
    forall i | 0 <= i < |vs| ensures Vals(Syms(vs))[i] == vs[i] {
      ValOfSym(vs[i]);
    }
  }

  lemma SymsAppend(xs: seq<nat>, ys: seq<nat>)
    requires Values(xs) && Values(ys)
    ensures Values(xs + ys) && Syms(xs + ys) == Syms(xs) + Syms(ys)
  {
    hide SymOf;
  }

  // Checksums.

  method PolyMod(vs: seq<nat>) returns (c: Word)
    requires Values(vs)
    ensures c == Poly(One(), Syms(vs))
  {
    hide Step, SymOf, Poly, Syms;
    c := One();
    PolyNone(vs);
    for i := 0 to |vs|
      invariant c == Poly(One(), Syms(vs[..i]))
    {
      PolyNext(vs, i);
      c := Step(c, SymOf(vs[i]));
    }
    assert vs[..|vs|] == vs;
  }

  lemma PolyNone(vs: seq<nat>)
    requires Values(vs)
    ensures Poly(One(), Syms(vs[..0])) == One()
  {
  }

  lemma PolyNext(vs: seq<nat>, i: nat)
    requires Values(vs) && i < |vs|
    ensures Poly(One(), Syms(vs[..i + 1])) == Step(Poly(One(), Syms(vs[..i])), SymOf(vs[i]))
  {
    hide Step, SymOf;
    assert vs[..i + 1][..i] == vs[..i];
    assert Syms(vs[..i + 1])[..i] == Syms(vs[..i]);
  }

  predicate Bytes(s: seq<nat>) {
    forall i :: 0 <= i < |s| ==> s[i] < 256
  }

  function High(s: seq<nat>): (r: seq<nat>)
    requires Bytes(s)
    ensures |r| == |s| && Values(r) && forall i :: 0 <= i < |r| ==> r[i] == s[i] / 32
  {
    if s == [] then [] else High(s[..|s| - 1]) + [s[|s| - 1] / 32]
  }

  function Low(s: seq<nat>): (r: seq<nat>)
    requires Bytes(s)
    ensures |r| == |s| && Values(r) && forall i :: 0 <= i < |r| ==> r[i] == s[i] % 32
  {
    if s == [] then [] else Low(s[..|s| - 1]) + [s[|s| - 1] % 32]
  }

  /** The readable part as values: high bits, a zero, low bits. */
  function Expanded(hrp: seq<nat>): (r: seq<nat>)
    requires Bytes(hrp)
    ensures Values(r)
  {
    High(hrp) + [0] + Low(hrp)
  }

  method ExpandHrp(hrp: seq<nat>) returns (r: seq<nat>)
    requires Bytes(hrp)
    ensures r == Expanded(hrp)
  {
    var n := |hrp|;
    var a := new nat[2 * n + 1](_ => 0);
    for i := 0 to n
      invariant forall j :: 0 <= j < i ==> a[j] == hrp[j] / 32
      invariant forall j :: n < j <= n + i ==> a[j] == hrp[j - n - 1] % 32
      invariant a[n] == 0
    {
      a[i] := hrp[i] / 32;
      a[i + n + 1] := hrp[i] % 32;
    }
    a[n] := 0;
    r := a[..];
    ghost var e := Expanded(hrp);
    forall j | 0 <= j < |r| ensures r[j] == e[j] {
      assert j > n ==> e[j] == Low(hrp)[j - n - 1];
    }
  }

  /** Whether values, checksum included, belong to a readable part. */
  ghost predicate Verifies(hrp: seq<nat>, vs: seq<nat>)
    requires Bytes(hrp) && Values(vs)
  {
    Poly(Poly(One(), Syms(Expanded(hrp))), Syms(vs)) == One()
  }

  method VerifyChecksum(hrp: seq<nat>, vs: seq<nat>) returns (ok: bool)
    requires Bytes(hrp) && Values(vs)
    ensures ok <==> Verifies(hrp, vs)
  {
    hide SymOf, Poly;
    var e := ExpandHrp(hrp);
    SymsAppend(e, vs);
    PolyAppend(One(), Syms(e), Syms(vs));
    var c := PolyMod(e + vs);
    ok := c == One();
  }

  /** The six values that make the checksum right. */
  function ChecksumOf(hrp: seq<nat>, vs: seq<nat>): (r: seq<nat>)
    requires Bytes(hrp) && Values(vs)
    ensures |r| == 6 && Values(r)
  {
    Vals(Unpacked(Xor(Poly(Poly(Poly(One(), Syms(Expanded(hrp))), Syms(vs)), Nils(6)), One())))
  }

  lemma ZerosAppended(e: seq<nat>, vs: seq<nat>)
    requires Values(e) && Values(vs)
    ensures var zeros := seq<nat>(6, _ => 0);
      Values(e + vs + zeros) && Poly(One(), Syms(e + vs + zeros)) == Poly(Poly(Poly(One(), Syms(e)), Syms(vs)), Nils(6))
  {
    hide Poly;
    var zeros := seq<nat>(6, _ => 0);
    SymsAppend(e, vs);
    SymsAppend(e + vs, zeros);
    assert Syms(zeros) == Nils(6);
    PolyAppend(One(), Syms(e) + Syms(vs), Nils(6));
    PolyAppend(One(), Syms(e), Syms(vs));
  }

  /** The six groups of five bits of a word as values. */
  method Groups(mod: Word) returns (r: seq<nat>)
    ensures r == Vals(Unpacked(mod))
  {
    r := [];
    ghost var all := Unpacked(mod);
    for i := 0 to 6
      invariant r == Vals(all[..i])
    {
      var group := mod[5 * (5 - i)..5 * (5 - i) + 5];
      assert all[..i + 1][..i] == all[..i];
      assert group == all[i];
      r := r + [ValOf(group)];
    }
    assert all[..6] == all;
  }

  method CreateChecksum(hrp: seq<nat>, vs: seq<nat>) returns (r: seq<nat>)
    requires Bytes(hrp) && Values(vs)
    ensures r == ChecksumOf(hrp, vs)
  {
    hide Poly, Xor, Syms, Vals, Unpacked;
    var e := ExpandHrp(hrp);
    ZerosAppended(e, vs);
    var c := PolyMod(e + vs + seq<nat>(6, _ => 0));
    r := Groups(Xor(c, One()));
  }

  /** Six values after others verify exactly when they are the checksum of the others. */
  lemma VerifiesIff(hrp: seq<nat>, vs: seq<nat>, sum: seq<nat>)
    requires Bytes(hrp) && Values(vs) && Values(sum) && |sum| == 6
    ensures Values(vs + sum) && (Verifies(hrp, vs + sum) <==> sum == ChecksumOf(hrp, vs))
  {
    hide Poly, Xor, Unpacked, SymOf, ValOf;
    var c := Poly(One(), Syms(Expanded(hrp)));
    SymsAppend(vs, sum);
    PolyAppend(c, Syms(vs), Syms(sum));
    var d := Poly(c, Syms(vs));
    ChecksumUnique(d, Syms(sum));
    var target := Unpacked(Xor(Poly(d, Nils(6)), One()));
    ValsSyms(sum);
    SymsVals(target);
  }

  /** Two lists of values that differ in exactly one place do not both verify. */
  lemma OneErrorDetected(hrp: seq<nat>, xs: seq<nat>, ys: seq<nat>, p: nat)
    requires Bytes(hrp) && Values(xs) && Values(ys) && |xs| == |ys| && p < |xs| && xs[p] != ys[p]
    requires forall i :: 0 <= i < |xs| && i != p ==> xs[i] == ys[i]
    ensures !(Verifies(hrp, xs) && Verifies(hrp, ys))
  {
    hide Poly, SymOf;
    ValOfSym(xs[p]);
    ValOfSym(ys[p]);
    OneError(Poly(One(), Syms(Expanded(hrp))), Syms(xs), Syms(ys), p);
  }

  // Text.

  /** The character of a value. */
  function Char(d: nat): nat
    requires d < 32
  {
    match d
    case 0 => 113
    case 1 => 112
    case 2 => 122
    case 3 => 114
    case 4 => 121
    case 5 => 57
    case 6 => 120
    case 7 => 56
    case 8 => 103
    case 9 => 102
    case 10 => 50
    case 11 => 116
    case 12 => 118
    case 13 => 100
    case 14 => 119
    case 15 => 48
    case 16 => 115
    case 17 => 51
    case 18 => 106
    case 19 => 110
    case 20 => 53
    case 21 => 52
    case 22 => 107
    case 23 => 104
    case 24 => 99
    case 25 => 101
    case 26 => 54
    case 27 => 109
    case 28 => 117
    case 29 => 97
    case 30 => 55
    case _ => 108
  }

  /** The value of a character in either case, or -1. */
  function Rev(c: nat): int {
    match c
    case 48 => 15
    case 50 => 10
    case 51 => 17
    case 52 => 21
    case 53 => 20
    case 54 => 26
    case 55 => 30
    case 56 => 7
    case 57 => 5
    case 65 => 29
    case 67 => 24
    case 68 => 13
    case 69 => 25
    case 70 => 9
    case 71 => 8
    case 72 => 23
    case 74 => 18
    case 75 => 22
    case 76 => 31
    case 77 => 27
    case 78 => 19
    case 80 => 1
    case 81 => 0
    case 82 => 3
    case 83 => 16
    case 84 => 11
    case 85 => 28
    case 86 => 12
    case 87 => 14
    case 88 => 6
    case 89 => 4
    case 90 => 2
    case 97 => 29
    case 99 => 24
    case 100 => 13
    case 101 => 25
    case 102 => 9
    case 103 => 8
    case 104 => 23
    case 106 => 18
    case 107 => 22
    case 108 => 31
    case 109 => 27
    case 110 => 19
    case 112 => 1
    case 113 => 0
    case 114 => 3
    case 115 => 16
    case 116 => 11
    case 117 => 28
    case 118 => 12
    case 119 => 14
    case 120 => 6
    case 121 => 4
    case 122 => 2
    case _ => -1
  }

  function LowerCase(c: nat): nat {
    if 65 <= c <= 90 then c - 65 + 97 else c
  }

  predicate IsLower(c: nat) { 97 <= c <= 122 }

  predicate IsUpper(c: nat) { 65 <= c <= 90 }

  lemma CharFacts(d: nat)
    requires d < 32
    ensures Rev(Char(d)) == d && 33 <= Char(d) <= 126 && Char(d) != SEPARATOR && !IsUpper(Char(d))
  {
  }

  lemma RevFacts(c: nat)
    ensures -1 <= Rev(c) < 32
    ensures Rev(c) >= 0 ==> Char(Rev(c)) == LowerCase(c) && c != SEPARATOR
  {
  }

  function Chars(vs: seq<nat>): (r: seq<nat>)
    requires Values(vs)
    ensures |r| == |vs| && forall i :: 0 <= i < |r| ==> r[i] == Char(vs[i])
  {
    if vs == [] then [] else Chars(vs[..|vs| - 1]) + [Char(vs[|vs| - 1])]
  }

  function WithChecksum(hrp: seq<nat>, vs: seq<nat>): (r: seq<nat>)
    requires Bytes(hrp) && Values(vs)
    ensures Values(r) && |r| == |vs| + 6
  {
    var sum := ChecksumOf(hrp, vs);
    ValuesAppend(vs, sum);
    vs + sum
  }

  lemma ValuesAppend(xs: seq<nat>, ys: seq<nat>)
    requires Values(xs) && Values(ys)
    ensures Values(xs + ys)
  {
  }

  /** The text of a readable part and values. */
  function Encoded(hrp: seq<nat>, vs: seq<nat>): seq<nat>
    requires Bytes(hrp) && Values(vs)
  {
    hrp + [SEPARATOR] + Chars(WithChecksum(hrp, vs))
  }

  method Encode(hrp: seq<nat>, vs: seq<nat>) returns (s: seq<nat>)
    requires Bytes(hrp) && Values(vs)
    ensures s == Encoded(hrp, vs)
  {
    hide ChecksumOf, Char;
    var sum := CreateChecksum(hrp, vs);
    var combined := vs + sum;
    assert combined == WithChecksum(hrp, vs);
    s := hrp + [SEPARATOR];
    for i := 0 to |combined|
      invariant s == hrp + [SEPARATOR] + Chars(combined[..i])
    {
      assert combined[..i + 1][..i] == combined[..i];
      s := s + [Char(combined[i])];
    }
    assert combined[..|combined|] == combined;
  }

  /** Printable characters, not in both cases. */
  ghost predicate Readable(s: seq<nat>) {
    && (forall i :: 0 <= i < |s| ==> 33 <= s[i] <= 126)
    && !((exists i :: 0 <= i < |s| && IsLower(s[i])) && (exists i :: 0 <= i < |s| && IsUpper(s[i])))
  }

  /** The last position of a character, or -1. */
  function LastIndex(s: seq<nat>, c: nat): (p: int)
    ensures -1 <= p < |s| && (p >= 0 ==> s[p] == c) && forall i :: p < i < |s| ==> s[i] != c
  {
    if s == [] then -1 else if s[|s| - 1] == c then |s| - 1 else LastIndex(s[..|s| - 1], c)
  }

  predicate AllValues(s: seq<nat>) {
    forall i :: 0 <= i < |s| ==> Rev(s[i]) >= 0
  }

  function Revs(s: seq<nat>): (r: seq<nat>)
    requires AllValues(s)
    ensures |r| == |s| && Values(r) && forall i :: 0 <= i < |r| ==> r[i] == Rev(s[i])
  {
    if s == [] then []
    else
      RevFacts(s[|s| - 1]);
      Revs(s[..|s| - 1]) + [Rev(s[|s| - 1])]
  }

  function Lower(s: seq<nat>): (r: seq<nat>)
    ensures |r| == |s| && forall i :: 0 <= i < |r| ==> r[i] == LowerCase(s[i])
  {
    if s == [] then [] else Lower(s[..|s| - 1]) + [LowerCase(s[|s| - 1])]
  }

  lemma LowerBytes(s: seq<nat>)
    requires forall i :: 0 <= i < |s| ==> s[i] <= 126
    ensures Bytes(Lower(s))
  {
  }

  /** Whether a text has the form of one: readable, short enough, a separator in the right place, values after it. */
  ghost predicate WellFormed(s: seq<nat>) {
    var p := LastIndex(s, SEPARATOR);
    Readable(s) && |s| <= 90 && p > 0 && p + 7 <= |s| && AllValues(s[p + 1..])
  }

  /** What a text stands for. */
  ghost function Decoded(s: seq<nat>): Option<(seq<nat>, seq<nat>)> {
    if !WellFormed(s) then None
    else
      var p := LastIndex(s, SEPARATOR);
      var hrp, vs := Lower(s[..p]), Revs(s[p + 1..]);
      LowerBytes(s[..p]);
      if Verifies(hrp, vs) then Some((hrp, vs[..|vs| - 6])) else None
  }

  method IsReadable(s: seq<nat>) returns (ok: bool)
    ensures ok <==> Readable(s)
  {
    var lower, upper := false, false;
    for i := 0 to |s|
      invariant forall j :: 0 <= j < i ==> 33 <= s[j] <= 126
      invariant lower <==> exists j :: 0 <= j < i && IsLower(s[j])
      invariant upper <==> exists j :: 0 <= j < i && IsUpper(s[j])
    {
      if IsLower(s[i]) {
        lower := true;
      } else if IsUpper(s[i]) {
        upper := true;
      } else if s[i] < 33 || s[i] > 126 {
        return false;
      }
    }
    ok := !(lower && upper);
  }

  method ReadValues(s: seq<nat>) returns (ok: bool, vs: seq<nat>)
    ensures ok <==> AllValues(s)
    ensures ok ==> vs == Revs(s)
  {
    hide Rev;
    vs := [];
    for i := 0 to |s|
      invariant AllValues(s[..i]) && vs == Revs(s[..i])
    {
      RevFacts(s[i]);
      var rev := Rev(s[i]);
      if rev == -1 {
        return false, vs;
      }
      assert s[..i + 1][..i] == s[..i];
      vs := vs + [rev];
    }
    assert s[..|s|] == s;
    ok := true;
  }

  method Decode(s: seq<nat>) returns (r: Option<(seq<nat>, seq<nat>)>)
    ensures r == Decoded(s)
  {
    hide Readable, Rev, Verifies;
    var ok := IsReadable(s);
    if !ok {
      return None;
    }
    var p := LastIndex(s, SEPARATOR);
    if |s| > 90 || p == -1 || p == 0 || p + 7 > |s| {
      return None;
    }
    var vs;
    ok, vs := ReadValues(s[p + 1..]);
    if !ok {
      return None;
    }
    var hrp: seq<nat> := [];
    for i := 0 to p
      invariant hrp == Lower(s[..i])
    {
      assert s[..i + 1][..i] == s[..i];
      hrp := hrp + [LowerCase(s[i])];
    }
    assert Bytes(hrp) by { ReadableBytes(s, p); }
    ok := VerifyChecksum(hrp, vs);
    if !ok {
      return None;
    }
    r := Some((hrp, vs[..|vs| - 6]));
  }

  lemma ReadableBytes(s: seq<nat>, p: nat)
    requires Readable(s) && p <= |s|
    ensures Bytes(Lower(s[..p]))
  {
    LowerBytes(s[..p]);
  }

  // Round trips.

  /** A readable part that can be encoded and comes back: printable and without capitals. */
  predicate GoodHrp(hrp: seq<nat>) {
    hrp != [] && forall i :: 0 <= i < |hrp| ==> 33 <= hrp[i] <= 126 && !IsUpper(hrp[i])
  }

  lemma EncodedShape(hrp: seq<nat>, all: seq<nat>)
    requires GoodHrp(hrp) && Values(all)
    ensures var s := hrp + [SEPARATOR] + Chars(all);
      && Readable(s) && LastIndex(s, SEPARATOR) == |hrp|
      && s[..|hrp|] == hrp && s[|hrp| + 1..] == Chars(all)
  {
    hide Char;
    var s := hrp + [SEPARATOR] + Chars(all);
    forall i | 0 <= i < |s|
      ensures 33 <= s[i] <= 126 && !IsUpper(s[i]) && (i > |hrp| ==> s[i] != SEPARATOR)
    {
      if i > |hrp| {
        CharFacts(all[i - |hrp| - 1]);
      }
    }
    var p := LastIndex(s, SEPARATOR);
    assert s[|hrp|] == SEPARATOR;
    assert !(p < |hrp|);
  }

  lemma RevsChars(all: seq<nat>)
    requires Values(all)
    ensures AllValues(Chars(all)) && Revs(Chars(all)) == all
  {
    hide Char, Rev;
    forall i | 0 <= i < |all| ensures Rev(Chars(all)[i]) == all[i] {
      CharFacts(all[i]);
    }
  }

  lemma LowerIdentity(s: seq<nat>)
    requires forall i :: 0 <= i < |s| ==> !IsUpper(s[i])
    ensures Lower(s) == s
  {
  }

  lemma GoodIsDecoded(hrp: seq<nat>, vs: seq<nat>)
    requires GoodHrp(hrp) && Values(vs) && |hrp| + |vs| + 7 <= 90
    ensures Bytes(hrp) && Decoded(Encoded(hrp, vs)) == Some((hrp, vs))
  {
    assert Bytes(hrp);
    hide ChecksumOf, Char, Rev, Verifies, Readable;
    var sum := ChecksumOf(hrp, vs);
    var all := WithChecksum(hrp, vs);
    EncodedShape(hrp, all);
    RevsChars(all);
    LowerIdentity(hrp);
    VerifiesIff(hrp, vs, sum);
    assert all[..|all| - 6] == vs;
  }

  /**
   * What is encoded is decoded again if and only if the readable part is good and the text is short enough, even if the
   * readable part contains the separator.
   */
  lemma DecodeEncoded(hrp: seq<nat>, vs: seq<nat>)
    requires Bytes(hrp) && Values(vs)
    ensures Decoded(Encoded(hrp, vs)) == Some((hrp, vs)) <==> GoodHrp(hrp) && |hrp| + |vs| + 7 <= 90
  {
    hide ChecksumOf, Char, Decoded, Lower, LastIndex;
    if GoodHrp(hrp) && |hrp| + |vs| + 7 <= 90 {
      GoodIsDecoded(hrp, vs);
    }
    var s := Encoded(hrp, vs);
    if Decoded(s) == Some((hrp, vs)) {
      DecodedHrp(s);
      var p := LastIndex(s, SEPARATOR);
      assert hrp == Lower(s[..p]) && |hrp| == p;
      forall i | 0 <= i < |hrp| ensures 33 <= hrp[i] <= 126 && !IsUpper(hrp[i]) {
        assert s[i] == hrp[i] == LowerCase(s[i]);
      }
    }
  }

  lemma DecodedHrp(s: seq<nat>)
    requires Decoded(s).Some?
    ensures var p := LastIndex(s, SEPARATOR);
      0 < p && |s| <= 90 && Decoded(s).value.0 == Lower(s[..p]) && forall i :: 0 <= i < |s| ==> 33 <= s[i] <= 126
  {
  }

  lemma CharsRevs(s: seq<nat>)
    requires AllValues(s)
    ensures Chars(Revs(s)) == Lower(s)
  {
    hide Char, Rev;
    forall i | 0 <= i < |s| ensures Chars(Revs(s))[i] == Lower(s)[i] {
      RevFacts(s[i]);
    }
  }

  lemma LowerParts(s: seq<nat>, p: nat)
    requires p < |s| && s[p] == SEPARATOR
    ensures Lower(s) == Lower(s[..p]) + [SEPARATOR] + Lower(s[p + 1..])
  {
    hide Lower;
    SplitAt(s, p);
    LowerJoined(s[..p], [SEPARATOR], s[p + 1..]);
    LowerSeparator();
  }

  lemma SplitAt(s: seq<nat>, p: nat)
    requires p < |s|
    ensures s == s[..p] + [s[p]] + s[p + 1..]
  {
  }

  lemma LowerJoined(a: seq<nat>, b: seq<nat>, c: seq<nat>)
    ensures Lower(a + b + c) == Lower(a) + Lower(b) + Lower(c)
  {
    LowerAppend(a + b, c);
    LowerAppend(a, b);
  }

  lemma LowerSeparator()
    ensures Lower([SEPARATOR]) == [SEPARATOR]
  {
  }

  lemma LowerAppend(a: seq<nat>, b: seq<nat>)
    ensures Lower(a + b) == Lower(a) + Lower(b)
  {
  }

  /** A text that can be decoded is, in lower case, the encoding of what it stands for. */
  lemma EncodeDecoded(s: seq<nat>)
    requires Decoded(s).Some?
    ensures var (hrp, vs) := Decoded(s).value;
      Bytes(hrp) && Values(vs) && Encoded(hrp, vs) == Lower(s)
  {
    var p := LastIndex(s, SEPARATOR);
    var hrp, all := Lower(s[..p]), Revs(s[p + 1..]);
    LowerBytes(s[..p]);
    hide ChecksumOf, Char, Rev, Verifies, Readable, Lower, Chars;
    var n := |all| - 6;
    var vs, sum := all[..n], all[n..];
    assert all == vs + sum;
    VerifiesIff(hrp, vs, sum);
    CharsRevs(s[p + 1..]);
    LowerParts(s, p);
  }
}
