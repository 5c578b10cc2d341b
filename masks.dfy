/** The solver's constraint bookkeeping: a u32 bit mask per row, column and
    3x3 box (27 slots), with bit d set when digit d is present in that unit. */
module Masks {

  /** The mask of digit d, `1 << d` on a u32 (digits are at most 9, so the
      shift never overflows). */
  function Bit(d: int): bv32
    requires 0 <= d <= 9
  {
    (1 as bv32) << d
  }

  /** Bit d of mask m is set. */
  predicate Has(m: bv32, d: int)
    requires 0 <= d <= 9
  {
    m & Bit(d) != 0
  }

  /** Masks of different digits do not overlap. */
  lemma BitsDisjoint(n: int, d: int)
    requires 0 <= n <= 9 && 0 <= d <= 9 && n != d
    ensures Bit(n) & Bit(d) == 0
  {
    assert n in {0, 1, 2, 3, 4, 5, 6, 7, 8, 9};
    assert d in {0, 1, 2, 3, 4, 5, 6, 7, 8, 9};
  }

  lemma BitNonzero(d: int)
    requires 0 <= d <= 9
    ensures Bit(d) != 0
  {
    assert d in {0, 1, 2, 3, 4, 5, 6, 7, 8, 9};
  }

  /** OR-ing in the bit of n adds digit n and no other digit. */
  lemma HasOr(m: bv32, n: int, d: int)
    requires 0 <= n <= 9 && 0 <= d <= 9
    ensures Has(m | Bit(n), d) <==> Has(m, d) || d == n
  {
    if n != d {
      BitsDisjoint(n, d);
    } else {
      BitNonzero(d);
    }
    assert (m | Bit(n)) & Bit(d) == (m & Bit(d)) | (Bit(n) & Bit(d));
  }

  /** The all-clear mask holds no digit. */
  lemma HasNone(d: int)
    requires 0 <= d <= 9
    ensures !Has(0, d)
  {
  }

  /** Slot of the 3x3 box holding cell (r, c): slots 18..26. */
  function BoxSlot(r: int, c: int): int
  {
    18 + (r / 3) * 3 + c / 3
  }

  /** Cell (r, c) belongs to slot k: its row slot r, its column slot 9 + c or
      its box slot. */
  predicate InSlot(k: int, r: int, c: int)
  {
    k == r || k == 9 + c || k == BoxSlot(r, c)
  }

  /** Cells (a, b) and (r, c) lie in a common row, column or 3x3 box. */
  predicate SameUnit(a: int, b: int, r: int, c: int)
  {
    a == r || b == c || (a / 3 == r / 3 && b / 3 == c / 3)
  }

  /** Two cells share a slot exactly when they share a unit. */
  lemma SlotIffUnit(a: int, b: int, r: int, c: int)
    requires 0 <= a < 9 && 0 <= b < 9 && 0 <= r < 9 && 0 <= c < 9
    ensures SameUnit(a, b, r, c) <==> exists k :: 0 <= k < 27 && InSlot(k, a, b) && InSlot(k, r, c)
  {
    if SameUnit(a, b, r, c) {
      if a == r {
        assert InSlot(r, a, b) && InSlot(r, r, c);
      } else if b == c {
        assert InSlot(9 + c, a, b) && InSlot(9 + c, r, c);
      } else {
        assert InSlot(BoxSlot(r, c), a, b) && InSlot(BoxSlot(r, c), r, c);
      }
    }
  }
}
