/** Mapping a 32-bit hash to a range by multiplication instead of division. */
module FastRange {
  import opened Arithmetic

  /** `(h * n) >> 32`: always below `n`. */
  function Scaled(h: int, n: nat): (r: nat)
    requires 0 <= h < TWO_32 && n > 0
    ensures r < n
  {
    ScaledInRange(h, n);
    h * n / TWO_32
  }

  lemma ScaledInRange(h: int, n: nat)
    requires 0 <= h < TWO_32 && n > 0
    ensures 0 <= h * n / TWO_32 < n
  {
    var q, r := h * n / TWO_32, h * n % TWO_32;
    assert h * n == q * TWO_32 + r;
    TimesMonotone(h, n, TWO_32 - 1, n);
  }
}
