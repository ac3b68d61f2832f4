/** Machine-word limits, and rounding to a multiple of an alignment. For the powers
    of two the program uses, `x & align.wrapping_neg()` is `RoundDown(x, align)` and
    `x.next_multiple_of(align)` is `RoundUp(x, align)`. */
module Rounding {

  const USIZE_MAX: nat := 0xFFFF_FFFF_FFFF_FFFF
  const ISIZE_MAX: nat := 0x7FFF_FFFF_FFFF_FFFF
  const ISIZE_MIN: int := -0x8000_0000_0000_0000

  type Usize = x: int | 0 <= x <= 0xFFFF_FFFF_FFFF_FFFF
  type Isize = x: int | -0x8000_0000_0000_0000 <= x <= 0x7FFF_FFFF_FFFF_FFFF

  function Max(a: int, b: int): int { if a < b then b else a }

  function Min(a: int, b: int): int { if a < b then a else b }

  function RoundDown(x: int, align: int): (r: int)
    requires align > 0
  {
    (x / align) * align
  }

  predicate Aligned(x: int, align: int)
    requires align > 0
  {
    x == RoundDown(x, align)
  }

  function RoundUp(x: int, align: int): (r: int)
    requires align > 0
  {
    if Aligned(x, align) then x else RoundDown(x, align) + align
  }

  // `a.saturating_add_signed(d)` on usize.
  function SaturatingAddSigned(a: int, d: int): (r: Usize) {
    if a + d < 0 then 0 else if a + d > USIZE_MAX then USIZE_MAX else a + d
  }

  // `a.saturating_sub(b)` on usize.
  function SaturatingSub(a: nat, b: nat): (r: nat) {
    if a < b then 0 else a - b
  }

  lemma ScaleOrder(p: int, q: int, align: int)
    requires align > 0 && p <= q
    ensures p * align <= q * align
  {
  }

  lemma Distribute(q: int, align: int)
    ensures (q + 1) * align == q * align + align
  {
  }

  lemma DownBounds(x: int, align: int)
    requires align > 0
    ensures RoundDown(x, align) <= x < RoundDown(x, align) + align
  {
  }

  // A multiple not above `x` is not above `RoundDown(x)`.
  lemma MultipleBelow(x: int, align: int, q: int)
    requires align > 0 && q * align <= x
    ensures q * align <= RoundDown(x, align)
  {
    DownBounds(x, align);
    if q <= x / align {
      ScaleOrder(q, x / align, align);
    } else {
      ScaleOrder(x / align + 1, q, align);
      Distribute(x / align, align);
    }
  }

  lemma MultiplesAreAligned(q: int, align: int)
    requires align > 0
    ensures Aligned(q * align, align)
  {
    DownBounds(q * align, align);
    MultipleBelow(q * align, align, q);
  }

  /** `RoundDown` is the greatest multiple not above `x`. */
  lemma RoundDownIsGreatest(x: int, align: int)
    requires align > 0
    ensures Aligned(RoundDown(x, align), align)
    ensures x - align < RoundDown(x, align) <= x
    ensures forall y: int :: y <= x && Aligned(y, align) ==> y <= RoundDown(x, align)
  {
    DownBounds(x, align);
    MultiplesAreAligned(x / align, align);
    forall y: int | y <= x && Aligned(y, align) ensures y <= RoundDown(x, align) {
      MultipleBelow(x, align, y / align);
    }
  }

  /** `RoundUp` is the least multiple not below `x`. */
  lemma RoundUpIsLeast(x: int, align: int)
    requires align > 0
    ensures Aligned(RoundUp(x, align), align)
    ensures x <= RoundUp(x, align) < x + align
    ensures forall y: int :: x <= y && Aligned(y, align) ==> RoundUp(x, align) <= y
  {
    DownBounds(x, align);
    Distribute(x / align, align);
    MultiplesAreAligned(x / align + 1, align);
    forall y: int | x <= y && Aligned(y, align) ensures RoundUp(x, align) <= y {
      if !Aligned(x, align) && y / align <= x / align {
        ScaleOrder(y / align, x / align, align);
        assert false;
      }
      if !Aligned(x, align) {
        ScaleOrder(x / align + 1, y / align, align);
      }
    }
  }
}
