/**
 * Base58 text for byte strings, with and without a checksum.
 */
module Base58 {
  import opened Common
  import opened Radix

  type Byte = x: nat | x < 256

  // The alphabet.

  /** The value of a character, or -1. */
  function Index(c: nat): (i: int)
    ensures -1 <= i < 58
  {
    if 49 <= c <= 57 then c - 49
    else if 65 <= c <= 72 then c - 65 + 9
    else if 74 <= c <= 78 then c - 74 + 17
    else if 80 <= c <= 90 then c - 80 + 22
    else if 97 <= c <= 107 then c - 97 + 33
    else if 109 <= c <= 122 then c - 109 + 44
    else -1
  }

  /** The character of a value. */
  function Char(d: nat): Byte
    requires d < 58
  {
    if d < 9 then d + 49
    else if d < 17 then d - 9 + 65
    else if d < 22 then d - 17 + 74
    else if d < 33 then d - 22 + 80
    else if d < 44 then d - 33 + 97
    else d - 44 + 109
  }

  lemma CharIndex(d: nat, c: nat)
    ensures d < 58 ==> Index(Char(d)) == d && !IsSpace(Char(d)) && Char(d) != 0
    ensures Index(c) >= 0 ==> Char(Index(c)) == c && !IsSpace(c) && c != 0
  {
  }

  const ONE: int := 49

  predicate IsSpace(c: nat) {
    c == 32 || 9 <= c <= 13
  }

  function Chars(digits: seq<nat>): (r: seq<nat>)
    requires AreDigits(58, digits)
    ensures |r| == |digits| && forall i :: 0 <= i < |r| ==> r[i] == Char(digits[i])
  {
    if digits == [] then [] else Chars(digits[..|digits| - 1]) + [Char(digits[|digits| - 1])]
  }

  predicate AllIndexed(s: seq<nat>) {
    forall i :: 0 <= i < |s| ==> Index(s[i]) >= 0
  }

  function Indexes(s: seq<nat>): (r: seq<nat>)
    requires AllIndexed(s)
    ensures |r| == |s| && forall i :: 0 <= i < |r| ==> r[i] == Index(s[i])
  {
    if s == [] then [] else Indexes(s[..|s| - 1]) + [Index(s[|s| - 1])]
  }

  // Leading symbols.

  function Leading(s: seq<nat>, x: nat): (n: nat)
    ensures n <= |s| && (forall i :: 0 <= i < n ==> s[i] == x) && (n < |s| ==> s[n] != x)
  {
    if s == [] || s[0] != x then 0 else 1 + Leading(s[1..], x)
  }

  lemma LeadingIs(s: seq<nat>, x: nat, n: nat)
    requires n <= |s| && (forall i :: 0 <= i < n ==> s[i] == x) && (n < |s| ==> s[n] != x)
    ensures Leading(s, x) == n
  {
  }

  function Repeated(x: nat, n: nat): (r: seq<nat>)
    ensures |r| == n && forall i :: 0 <= i < n ==> r[i] == x
  {
    seq<nat>(n, _ => x)
  }

  // What encoding and decoding mean.

  /** Zero bytes become the first character; the rest is a number in base 58. */
  function Encoded(v: seq<nat>): seq<nat> {
    var z := Leading(v, 0);
    Repeated(ONE, z) + Chars(Digits(58, Val(256, v[z..])))
  }

  /** The bytes of a text without spaces; `None` if a character is not in the alphabet. */
  function Decoded(s: seq<nat>): Option<seq<nat>> {
    var z := Leading(s, ONE);
    if AllIndexed(s[z..]) then Some(Repeated(0, z) + Digits(256, Val(58, Indexes(s[z..])))) else None
  }

  lemma IndexesChars(d: seq<nat>)
    requires AreDigits(58, d)
    ensures AllIndexed(Chars(d)) && Indexes(Chars(d)) == d
  {
    hide Char, Index, Chars, Indexes;
    forall i | 0 <= i < |d| ensures Index(Chars(d)[i]) == d[i] {
      CharIndex(d[i], 0);
    }
  }

  /** Every byte string comes back. */
  lemma DecodeEncoded(v: seq<nat>)
    requires AreDigits(256, v)
    ensures Decoded(Encoded(v)) == Some(v)
  {
    hide Char, Index, Chars, Digits, Val, Indexes;
    var z := Leading(v, 0);
    var n := Val(256, v[z..]);
    var d := Digits(58, n);
    var s := Encoded(v);
    assert s[z..] == Chars(d);
    IndexesChars(d);
    if d != [] {
      assert s[z] == Chars(d)[0] == Char(d[0]);
      FirstCharIsNotOne(d[0]);
    }
    LeadingIs(s, ONE, z);
    ValDigits(58, n);
    DigitsUnique(256, v[z..]);
    assert v == Repeated(0, z) + v[z..];
  }

  lemma FirstCharIsNotOne(d: nat)
    requires d < 58
    ensures Char(d) == ONE <==> d == 0
    ensures forall c :: Index(c) == 0 <==> c == ONE
  {
  }

  /** Every text that can be decoded comes back. */
  lemma EncodeDecoded(s: seq<nat>)
    requires Decoded(s).Some?
    ensures Encoded(Decoded(s).value) == s
  {
    hide Char, Index, Chars, Digits, Val, Indexes;
    var z := Leading(s, ONE);
    var d := Indexes(s[z..]);
    var n := Val(58, d);
    var v := Decoded(s).value;
    assert v[z..] == Digits(256, n);
    LeadingIs(v, 0, z);
    ValDigits(256, n);
    if d != [] {
      FirstCharIsNotOne(0);
      assert Index(s[z..][0]) != 0;
    }
    DigitsUnique(58, d);
    forall i | 0 <= i < |d| ensures Char(d[i]) == s[z..][i] {
      CharIndex(0, s[z..][i]);
    }
    assert Chars(d) == s[z..];
    assert s == Repeated(ONE, z) + s[z..];
  }

  // The buffers are large enough.

  lemma PowOne(b: nat)
    ensures Pow(b, 1) == b
  {
    assert Pow(b, 0) == 1;
  }

  lemma FiftyBytes()
    ensures Pow(256, 50) <= Pow(58, 69)
  {
    hide Pow;
    assert Pow(58, 1) == 58 by { PowOne(58); }
    assert Pow(58, 2) == 3364 by { PowAdd(58, 1, 1); }
    assert Pow(58, 4) == 11316496 by { PowAdd(58, 2, 2); }
    assert Pow(58, 8) == 128063081718016 by { PowAdd(58, 4, 4); }
    assert Pow(58, 16) == 16400152899115243850138976256 by { PowAdd(58, 8, 8); }
    assert Pow(58, 32) == 268965015114358137726910587140455987105619365599731777536 by { PowAdd(58, 16, 16); }
    assert Pow(58, 64) ==
      0x7853026ae25f4ce0c69893e6f1f86f67aef4db69563516064adeb967a9d66f4fe64b09ec94e5010000000000000000
    by { PowAdd(58, 32, 32); }
    assert Pow(58, 68) ==
      0x51291d3da279b033ee22c4e4a6e2dedc799439d259d1820f6deea1c2dcc053504eae09c5598944bbfd100000000000000000
    by { PowAdd(58, 64, 4); }
    assert Pow(58, 69) ==
      0x1263509ff6cf91ebc3f3e09bcdcf667df38b9519a85977777ee810a6260392e031d36e36b64919929755a00000000000000000
    by { PowAdd(58, 68, 1); }
    assert Pow(256, 1) == 256 by { PowOne(256); }
    assert Pow(256, 2) == 65536 by { PowAdd(256, 1, 1); }
    assert Pow(256, 4) == 4294967296 by { PowAdd(256, 2, 2); }
    assert Pow(256, 8) == 18446744073709551616 by { PowAdd(256, 4, 4); }
    assert Pow(256, 16) == 340282366920938463463374607431768211456 by { PowAdd(256, 8, 8); }
    assert Pow(256, 32) ==
      0x10000000000000000000000000000000000000000000000000000000000000000
    by { PowAdd(256, 16, 16); }
    assert Pow(256, 48) ==
      0x1000000000000000000000000000000000000000000000000000000000000000000000000000000000000000000000000
    by { PowAdd(256, 32, 16); }
    assert Pow(256, 50) ==
      0x10000000000000000000000000000000000000000000000000000000000000000000000000000000000000000000000000000
    by { PowAdd(256, 48, 2); }
  }

  lemma SeventyOneCharacters()
    ensures Pow(58, 71) <= Pow(256, 52)
  {
    hide Pow;
    assert Pow(58, 1) == 58 by { PowOne(58); }
    assert Pow(58, 2) == 3364 by { PowAdd(58, 1, 1); }
    assert Pow(58, 3) == 195112 by { PowAdd(58, 2, 1); }
    assert Pow(58, 4) == 11316496 by { PowAdd(58, 2, 2); }
    assert Pow(58, 7) == 2207984167552 by { PowAdd(58, 4, 3); }
    assert Pow(58, 8) == 128063081718016 by { PowAdd(58, 4, 4); }
    assert Pow(58, 16) == 16400152899115243850138976256 by { PowAdd(58, 8, 8); }
    assert Pow(58, 32) == 268965015114358137726910587140455987105619365599731777536 by { PowAdd(58, 16, 16); }
    assert Pow(58, 64) ==
      0x7853026ae25f4ce0c69893e6f1f86f67aef4db69563516064adeb967a9d66f4fe64b09ec94e5010000000000000000
    by { PowAdd(58, 32, 32); }
    assert Pow(58, 71) ==
      0xf1a10f76073f997e1af0b37f5c795ecf145633452837a5de3fa17ac74b86f60a0ebe5446f358940a4ca12a800000000000000000
    by { PowAdd(58, 64, 7); }
    assert Pow(256, 1) == 256 by { PowOne(256); }
    assert Pow(256, 2) == 65536 by { PowAdd(256, 1, 1); }
    assert Pow(256, 4) == 4294967296 by { PowAdd(256, 2, 2); }
    assert Pow(256, 8) == 18446744073709551616 by { PowAdd(256, 4, 4); }
    assert Pow(256, 16) == 340282366920938463463374607431768211456 by { PowAdd(256, 8, 8); }
    assert Pow(256, 32) ==
      0x10000000000000000000000000000000000000000000000000000000000000000
    by { PowAdd(256, 16, 16); }
    assert Pow(256, 48) ==
      0x1000000000000000000000000000000000000000000000000000000000000000000000000000000000000000000000000
    by { PowAdd(256, 32, 16); }
    assert Pow(256, 52) ==
      0x100000000000000000000000000000000000000000000000000000000000000000000000000000000000000000000000000000000
    by { PowAdd(256, 48, 4); }
  }

  lemma EncodeBuffer(n: nat)
    ensures Pow(256, n) <= Pow(58, n * 138 / 100 + 1)
  {
    hide Pow;
    FiftyBytes();
    EnoughDigits(256, 58, 50, 69, n, n * 138 / 100 + 1);
  }

  lemma DecodeBuffer(n: nat)
    ensures Pow(58, n) <= Pow(256, n * 733 / 1000 + 1)
  {
    hide Pow;
    SeventyOneCharacters();
    EnoughDigits(58, 256, 71, 52, n, n * 733 / 1000 + 1);
  }

  /** Another digit still fits. */
  lemma NextFits(b: nat, s: seq<nat>, k: nat, target: nat, size: nat)
    requires b > 0 && AreDigits(b, s) && k < |s| && Pow(b, |s|) <= Pow(target, size)
    ensures Val(b, s[..k + 1]) == Val(b, s[..k]) * b + s[k] < Pow(target, size)
  {
    hide Pow, Val;
    assert s[..k + 1] == s[..k] + [s[k]];
    ValAppend(b, s[..k], s[k]);
    ValBound(b, s[..k + 1]);
    PowExponent(b, k + 1, |s|);
  }

  /** Converts digits of one base into another, in a buffer of the given size, without leading zeros. */
  method Convert(s: seq<nat>, b: nat, target: nat, size: nat) returns (r: seq<nat>)
    requires b > 0 && target >= 2 && AreDigits(b, s) && Pow(b, |s|) <= Pow(target, size)
    ensures r == Digits(target, Val(b, s))
  {
    hide Pow, Val, Digits;
    var buffer := new nat[size](_ => 0);
    var length := 0;
    ValZeros(target, buffer[..]);
    ValNone(b);
    for k := 0 to |s|
      invariant AreDigits(target, buffer[..]) && 0 <= length <= size
      invariant forall i :: 0 <= i < size - length ==> buffer[i] == 0
      invariant Val(target, buffer[..]) == Val(b, s[..k])
    {
      NextFits(b, s, k, target, size);
      length := MulAdd(buffer, target, b, s[k], length);
    }
    assert s[..|s|] == s;
    var it := size - length;
    while it < size && buffer[it] == 0
      invariant 0 <= it <= size && forall i :: 0 <= i < it ==> buffer[i] == 0
    {
      it := it + 1;
    }
    r := buffer[it..];
    assert buffer[..][it..] == r;
    ValDropZeros(target, buffer[..], it);
    DigitsUnique(target, r);
  }

  method EncodeBase58(v: seq<nat>) returns (s: seq<nat>)
    requires AreDigits(256, v)
    ensures s == Encoded(v)
  {
    hide Pow, Val, Digits, Char;
    var zeroes := 0;
    while zeroes < |v| && v[zeroes] == 0
      invariant 0 <= zeroes <= |v| && forall i :: 0 <= i < zeroes ==> v[i] == 0
    {
      zeroes := zeroes + 1;
    }
    LeadingIs(v, 0, zeroes);
    var rest := v[zeroes..];
    EncodeBuffer(|rest|);
    var digits := Convert(rest, 256, 58, |rest| * 138 / 100 + 1);
    s := Repeated(ONE, zeroes);
    for i := 0 to |digits|
      invariant s == Repeated(ONE, zeroes) + Chars(digits[..i])
    {
      assert digits[..i + 1][..i] == digits[..i];
      s := s + [Char(digits[i])];
    }
    assert digits[..|digits|] == digits;
  }

  // Spaces around the text.

  /** The first position from `i` on that is not a space. */
  function SkipSpaces(s: seq<nat>, i: nat): (j: nat)
    requires i <= |s|
    ensures i <= j <= |s| && (forall k :: i <= k < j ==> IsSpace(s[k])) && (j < |s| ==> !IsSpace(s[j]))
    decreases |s| - i
  {
    if i < |s| && IsSpace(s[i]) then SkipSpaces(s, i + 1) else i
  }

  /** The first position from `i` on that is a space. */
  function SkipWord(s: seq<nat>, i: nat): (j: nat)
    requires i <= |s|
    ensures i <= j <= |s| && (forall k :: i <= k < j ==> !IsSpace(s[k])) && (j < |s| ==> IsSpace(s[j]))
    decreases |s| - i
  {
    if i < |s| && !IsSpace(s[i]) then SkipWord(s, i + 1) else i
  }

  /** The bytes of a text that may have spaces around it, but not inside. */
  function DecodedText(s: seq<nat>): Option<seq<nat>> {
    var a := SkipSpaces(s, 0);
    var e := SkipWord(s, a);
    if SkipSpaces(s, e) == |s| then Decoded(s[a..e]) else None
  }

  lemma WordAt(s: seq<nat>, a: nat, e: nat)
    requires a <= e <= |s|
    requires forall k :: 0 <= k < a || e <= k < |s| ==> IsSpace(s[k])
    requires forall k :: a <= k < e ==> !IsSpace(s[k])
    ensures a < e ==> SkipSpaces(s, 0) == a && SkipWord(s, a) == e && SkipSpaces(s, e) == |s|
    ensures a == e ==> SkipSpaces(s, 0) == |s| && SkipWord(s, |s|) == |s|
  {
    assert a < e ==> !IsSpace(s[a]);
    assert e < |s| ==> IsSpace(s[e]);
  }

  /** Spaces around a text make no difference. */
  lemma SpacesIgnored(before: seq<nat>, s: seq<nat>, after: seq<nat>)
    requires forall k :: 0 <= k < |before| ==> IsSpace(before[k])
    requires forall k :: 0 <= k < |after| ==> IsSpace(after[k])
    requires forall k :: 0 <= k < |s| ==> !IsSpace(s[k])
    ensures DecodedText(before + s + after) == Decoded(s)
  {
    hide Decoded;
    var t := before + s + after;
    WordAt(t, |before|, |before| + |s|);
    assert t[|before|..|before| + |s|] == s;
    if s == [] {
      assert t[|t|..|t|] == s;
    }
  }

  /** A C string ends before its first zero. */
  function CString(s: seq<nat>): (r: seq<nat>)
    ensures |r| <= |s| && r == s[..|r|] && 0 !in r && (|r| < |s| ==> s[|r|] == 0)
  {
    if s == [] || s[0] == 0 then [] else [s[0]] + CString(s[1..])
  }

  /** The values of characters; false if one is not in the alphabet. */
  method ReadDigits(s: seq<nat>) returns (ok: bool, digits: seq<nat>)
    ensures ok <==> AllIndexed(s)
    ensures ok ==> digits == Indexes(s)
  {
    hide Index;
    digits := [];
    for i := 0 to |s|
      invariant AllIndexed(s[..i]) && digits == Indexes(s[..i])
    {
      var carry := Index(s[i]);
      if carry == -1 {
        return false, digits;
      }
      assert s[..i + 1][..i] == s[..i];
      digits := digits + [carry];
    }
    assert s[..|s|] == s;
    ok := true;
  }

  method DecodeBase58(text: seq<nat>) returns (r: Option<seq<nat>>)
    ensures r == DecodedText(CString(text))
  {
    hide Pow, Val, Digits, Index, Indexes, IsSpace;
    var s := CString(text);
    var a := SkipSpaces(s, 0);
    var e := SkipWord(s, a);
    var zeroes := 0;
    while a + zeroes < |s| && s[a + zeroes] == ONE
      invariant 0 <= zeroes && a + zeroes <= |s| && forall i :: a <= i < a + zeroes ==> s[i] == ONE
    {
      zeroes := zeroes + 1;
    }
    OnesInWord(s, a, zeroes);
    var word := s[a..e];
    var n := |s| - (a + zeroes);
    var size := n * 733 / 1000 + 1;
    var ok, digits := ReadDigits(word[zeroes..]);
    if !ok {
      return None;
    }
    DecodeBuffer(n);
    PowExponent(58, |digits|, n);
    assert AreDigits(58, digits);
    var bytes := Convert(digits, 58, 256, size);
    if SkipSpaces(s, e) != |s| {
      return None;
    }
    r := Some(Repeated(0, zeroes) + bytes);
  }

  lemma OnesInWord(s: seq<nat>, a: nat, z: nat)
    requires a + z <= |s| && forall i :: a <= i < a + z ==> s[i] == ONE
    requires a + z < |s| ==> s[a + z] != ONE
    ensures a + z <= SkipWord(s, a)
    ensures Leading(s[a..SkipWord(s, a)], ONE) == z
  {
    var e := SkipWord(s, a);
    var word := s[a..e];
    assert z < |word| ==> word[z] == s[a + z];
    LeadingIs(word, ONE, z);
  }

  // With a checksum.

  /** The first four bytes of a hash. */
  function Checksum(hash: seq<nat> -> seq<nat>, v: seq<nat>): seq<nat>
    requires |hash(v)| >= 4
  {
    hash(v)[..4]
  }

  ghost predicate IsHash(hash: seq<nat> -> seq<nat>) {
    forall v :: |hash(v)| >= 4 && AreDigits(256, hash(v))
  }

  /** Decoded bytes that are a string and its checksum. */
  ghost predicate IsChecked(hash: seq<nat> -> seq<nat>, d: Option<seq<nat>>, v: seq<nat>) {
    |hash(v)| >= 4 && d == Some(v + Checksum(hash, v))
  }

  method EncodeBase58Check(hash: seq<nat> -> seq<nat>, v: seq<nat>) returns (s: seq<nat>)
    requires IsHash(hash) && AreDigits(256, v)
    ensures s == Encoded(v + Checksum(hash, v))
  {
    s := EncodeBase58(v + hash(v)[..4]);
  }

  method DecodeBase58Check(hash: seq<nat> -> seq<nat>, text: seq<nat>) returns (r: Option<seq<nat>>)
    requires IsHash(hash)
    ensures r.Some? <==> exists v :: IsChecked(hash, DecodedText(CString(text)), v)
    ensures r.Some? ==> IsChecked(hash, DecodedText(CString(text)), r.value)
  {
    hide DecodedText, CString;
    var d := DecodeBase58(text);
    if d.None? {
      return None;
    }
    var all := d.value;
    assert forall w :: |w + Checksum(hash, w)| >= 4;
    if |all| < 4 {
      return None;
    }
    var v := all[..|all| - 4];
    assert all == v + all[|all| - 4..];
    if hash(v)[..4] != all[|all| - 4..] {
      forall w ensures !IsChecked(hash, d, w) {
        assert all == w + Checksum(hash, w) ==> w == v;
      }
      return None;
    }
    assert IsChecked(hash, d, v);
    r := Some(v);
  }

  /** What is encoded with a checksum is decoded again, whatever the hash. */
  method CheckRoundTrip(hash: seq<nat> -> seq<nat>, v: seq<nat>) returns (r: Option<seq<nat>>)
    requires IsHash(hash) && AreDigits(256, v)
    ensures r == Some(v)
  {
    var s := EncodeBase58Check(hash, v);
    CheckedText(hash, v);
    hide Encoded, DecodedText, CString;
    r := DecodeBase58Check(hash, s);
    SameSplit(hash, v, r.value);
  }

  lemma CheckedText(hash: seq<nat> -> seq<nat>, v: seq<nat>)
    requires IsHash(hash) && AreDigits(256, v)
    ensures IsChecked(hash, DecodedText(CString(Encoded(v + Checksum(hash, v)))), v)
  {
    hide Encoded, DecodedText, CString;
    TextOfEncoded(v + Checksum(hash, v));
  }

  /** Decoding the text of any byte string gives it back. */
  lemma TextOfEncoded(v: seq<nat>)
    requires AreDigits(256, v)
    ensures DecodedText(CString(Encoded(v))) == Some(v)
  {
    hide Encoded, Decoded, DecodedText, CString, IsSpace;
    DecodeEncoded(v);
    EncodedIsPlain(v);
    SpacesIgnored([], Encoded(v), []);
    assert [] + Encoded(v) + [] == Encoded(v);
  }

  lemma SameSplit(hash: seq<nat> -> seq<nat>, v: seq<nat>, w: seq<nat>)
    requires IsHash(hash) && v + Checksum(hash, v) == w + Checksum(hash, w)
    ensures v == w
  {
    assert |v| == |w|;
    assert v == (v + Checksum(hash, v))[..|v|] && w == (w + Checksum(hash, w))[..|w|];
  }

  /** An encoded text has no spaces and no zeros. */
  lemma EncodedIsPlain(v: seq<nat>)
    requires AreDigits(256, v)
    ensures var s := Encoded(v); CString(s) == s && forall k :: 0 <= k < |s| ==> !IsSpace(s[k])
  {
    hide Val, Digits, Char, IsSpace, CString;
    var z := Leading(v, 0);
    var d := Digits(58, Val(256, v[z..]));
    var s := Encoded(v);
    forall k | 0 <= k < |s| ensures !IsSpace(s[k]) && s[k] != 0 {
      if k < z {
        CharIndex(0, ONE);
        assert Index(ONE) == 0;
      } else {
        CharIndex(d[k - z], 0);
      }
    }
  }
}
