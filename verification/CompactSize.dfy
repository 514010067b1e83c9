/**
 * Sizes in one, three, five or nine bytes. Reading accepts only the shortest
 * form, and only sizes up to a limit that writing does not know.
 */
module CompactSize {
  import opened Arithmetic
  import opened Common
  import opened BitStream

  /** The low `k` bytes of a number, the lowest first. */
  function LittleEndian(n: nat, k: nat): (s: seq<Byte>)
    ensures |s| == k
  {
    if k == 0 then [] else [n % 0x100] + LittleEndian(n / 0x100, k - 1)
  }

  function NumberOf(s: seq<Byte>): nat {
    if s == [] then 0 else s[0] + 0x100 * NumberOf(s[1..])
  }

  lemma {:induction false} NumberOfLittleEndian(n: nat, k: nat)
    requires n < Pow2(8 * k)
    ensures NumberOf(LittleEndian(n, k)) == n
    decreases k
  {
    if k > 0 {
      var m, s := n / 0x100, LittleEndian(n, k);
      assert Pow2(8) == 0x100;
      Pow2Add(8, 8 * (k - 1));
      NumberOfLittleEndian(m, k - 1);
      assert s[1..] == LittleEndian(m, k - 1);
    }
  }

  lemma {:induction false} LittleEndianOfNumber(s: seq<Byte>)
    ensures NumberOf(s) < Pow2(8 * |s|) && LittleEndian(NumberOf(s), |s|) == s
  {
    if s != [] {
      LittleEndianOfNumber(s[1..]);
      assert Pow2(8) == 0x100;
      Pow2Add(8, 8 * (|s| - 1));
      var m := NumberOf(s[1..]);
      DivUnique(s[0] + 0x100 * m, 0x100, m, s[0]);
      assert s == [s[0]] + s[1..];
    }
  }

  /** `WriteCompactSize`. */
  function Encoded(n: nat): (s: seq<Byte>)
    requires n < TWO_64
    ensures s != []
  {
    if n < 253 then [n]
    else if n <= 0xFFFF then [253] + LittleEndian(n, 2)
    else if n <= 0xFFFF_FFFF then [254] + LittleEndian(n, 4)
    else [255] + LittleEndian(n, 8)
  }

  /** The `k` bytes after the first one as a number of at least `low`, and what follows. */
  function Tail(s: seq<Byte>, k: nat, low: nat): Option<(nat, seq<Byte>)> {
    if |s| < 1 + k || NumberOf(s[1..1 + k]) < low || NumberOf(s[1..1 + k]) > MAX_SIZE then None
    else Some((NumberOf(s[1..1 + k]), s[1 + k..]))
  }

  /** `ReadCompactSize`: the size and the rest of the stream; `None` stands for the exceptions. */
  function Decoded(s: seq<Byte>): Option<(nat, seq<Byte>)> {
    if s == [] then None
    else if s[0] < 253 then Some((s[0], s[1..]))
    else if s[0] == 253 then Tail(s, 2, 253)
    else if s[0] == 254 then Tail(s, 4, 0x1_0000)
    else Tail(s, 8, 0x1_0000_0000)
  }

  /** What was written is read back if and only if it is within the limit. */
  lemma DecodeEncoded(n: nat, rest: seq<Byte>)
    requires n < TWO_64
    ensures Decoded(Encoded(n) + rest) == if n <= MAX_SIZE then Some((n, rest)) else None
  {
    hide Pow2, LittleEndian, NumberOf;
    var s := Encoded(n) + rest;
    if n < 253 {
      assert s[1..] == rest;
    } else {
      var k := if n <= 0xFFFF then 2 else if n <= 0xFFFF_FFFF then 4 else 8;
      assert s[1..1 + k] == LittleEndian(n, k) && s[1 + k..] == rest;
      Pow2Of32();
      Pow2Of64();
      NumberOfLittleEndian(n, k);
    }
  }

  /** Only what would be written is accepted. */
  lemma EncodeDecoded(s: seq<Byte>)
    requires Decoded(s).Some?
    ensures var (n, rest) := Decoded(s).value;
      n <= MAX_SIZE && s == Encoded(n) + rest
  {
    hide Pow2, LittleEndian, NumberOf;
    if s[0] < 253 {
      assert s == [s[0]] + s[1..];
    } else {
      var k := if s[0] == 253 then 2 else if s[0] == 254 then 4 else 8;
      Pow2Of32();
      Pow2Of64();
      LittleEndianOfNumber(s[1..1 + k]);
      assert s == [s[0]] + s[1..1 + k] + s[1 + k..];
    }
  }

  lemma DecodeNothing()
    ensures Decoded([]) == None
  {
  }
}
