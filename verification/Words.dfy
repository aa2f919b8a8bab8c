/** One bit of a 16-bit word, of which the bitmaps of a disk are made: the `1 << bit` masks. */
module Words16 {
  /** The mask `1 << bit`, by repeated doubling. */
  function Mask(bit: nat): bv16
    requires bit < 16
  {
    if bit == 0 then 1 else Mask(bit - 1) << 1
  }

  lemma MaskIsShift(bit: nat)
    requires bit < 16
    ensures Mask(bit) == 1 << bit
  {
    assert Mask(0) == 0x1 && Mask(1) == 0x2 && Mask(2) == 0x4 && Mask(3) == 0x8;
    assert Mask(4) == 0x10 && Mask(5) == 0x20 && Mask(6) == 0x40 && Mask(7) == 0x80;
    assert Mask(8) == 0x100 && Mask(9) == 0x200 && Mask(10) == 0x400 && Mask(11) == 0x800;
    assert Mask(12) == 0x1000 && Mask(13) == 0x2000 && Mask(14) == 0x4000 && Mask(15) == 0x8000;
  }

  lemma ShiftBits(i: nat, j: nat)
    requires i < 16 && j < 16
    ensures (1 as bv16 << i) & (1 as bv16 << j) == (if i == j then 1 as bv16 << i else 0)
    ensures 1 as bv16 << i != 0
  {
  }

  predicate Meets(w: bv16, m: bv16) {
    w & m != 0
  }

  predicate Bit(w: bv16, k: nat)
    requires k < 16
  {
    Meets(w, Mask(k))
  }

  lemma MaskBits(i: nat, j: nat)
    requires i < 16 && j < 16
    ensures Mask(i) & Mask(j) == (if i == j then Mask(i) else 0)
    ensures Mask(i) != 0
  {
    MaskIsShift(i);
    MaskIsShift(j);
    ShiftBits(i, j);
  }

  function Store(w: bv16, mask: bv16, on: bool): bv16 {
    if on then w | mask else w & !mask
  }

  lemma StoreSame(w: bv16, m: bv16, on: bool)
    requires m != 0
    ensures Meets(Store(w, m, on), m) == on
  {
  }

  lemma StoreOther(w: bv16, m: bv16, on: bool, n: bv16)
    requires m & n == 0
    ensures Meets(Store(w, m, on), n) == Meets(w, n)
  {
  }

  lemma StoreBitSame(w: bv16, i: nat, on: bool)
    requires i < 16
    ensures Bit(Store(w, Mask(i), on), i) == on
  {
    MaskBits(i, i);
    StoreSame(w, Mask(i), on);
  }

  /** Switching a clear bit on and off again. */
  lemma StoreBack(w: bv16, i: nat)
    requires i < 16 && !Bit(w, i)
    ensures Bit(Store(w, Mask(i), true), i) && Store(Store(w, Mask(i), true), Mask(i), false) == w
  {
    StoreBitSame(w, i, true);
    StoreOnOff(w, Mask(i));
  }

  lemma StoreOnOff(w: bv16, m: bv16)
    requires !Meets(w, m)
    ensures Store(Store(w, m, true), m, false) == w
  {
  }

  lemma StoreBitOther(w: bv16, i: nat, on: bool, j: nat)
    requires i < 16 && j < 16 && i != j
    ensures Bit(Store(w, Mask(i), on), j) == Bit(w, j)
  {
    MaskBits(i, j);
    StoreOther(w, Mask(i), on, Mask(j));
  }

  lemma FullWord(k: nat)
    requires k < 16
    ensures Bit(0xFFFF, k)
  {
    MaskBits(k, k);
  }

  lemma AllBitsSet(w: bv16)
    requires forall k: nat | k < 16 :: Bit(w, k)
    ensures w == 0xFFFF
  {
    assert Mask(0) == 0x1 && Mask(1) == 0x2 && Mask(2) == 0x4 && Mask(3) == 0x8;
    assert Bit(w, 0) && Bit(w, 1) && Bit(w, 2) && Bit(w, 3);
    assert Bit(w, 4) && Bit(w, 5) && Bit(w, 6) && Bit(w, 7);
    assert Bit(w, 8) && Bit(w, 9) && Bit(w, 10) && Bit(w, 11);
    assert Bit(w, 12) && Bit(w, 13) && Bit(w, 14) && Bit(w, 15);
  }

  lemma WordWithZero(w: bv16) returns (k: nat)
    requires w != 0xFFFF
    ensures k < 16 && !Bit(w, k)
  {
    if forall k: nat | k < 16 :: Bit(w, k) {
      AllBitsSet(w);
    }
    k :| k < 16 && !Bit(w, k);
  }

  /** The lowest clear bit from bit `k` on, if there is one. */
  function LowZero(w: bv16, k: nat): (bit: nat)
    requires k < 16
    ensures k <= bit < 16 && forall j: nat | k <= j < bit :: Bit(w, j)
    decreases 16 - k
  {
    if k == 15 || !Bit(w, k) then k else LowZero(w, k + 1)
  }

  lemma LowZeroClear(w: bv16)
    requires w != 0xFFFF
    ensures !Bit(w, LowZero(w, 0))
  {
    var zero := WordWithZero(w);
    LowZeroBelow(w, 0, zero);
  }

  lemma {:induction false} LowZeroBelow(w: bv16, k: nat, zero: nat)
    requires k <= zero < 16 && !Bit(w, zero)
    ensures !Bit(w, LowZero(w, k))
    decreases 16 - k
  {
    if Bit(w, k) {
      LowZeroBelow(w, k + 1, zero);
    }
  }

  /** The scan of one word for its lowest clear bit. */
  method FirstZero(num: bv16) returns (bit: nat)
    requires num != 0xFFFF
    ensures bit < 16 && !Bit(num, bit)
    ensures forall k: nat | k < bit :: Bit(num, k)
    ensures bit == LowZero(num, 0)
  {
    bit := 0;
    ghost var zero := WordWithZero(num);
    while Bit(num, bit)
      invariant bit <= zero
      invariant forall k: nat | k < bit :: Bit(num, k)
      invariant LowZero(num, 0) == LowZero(num, bit)
      decreases zero - bit
    {
      bit := bit + 1;
    }
  }
}

/** The same for the 32-bit words of the checker's own bitmaps. */
module Words32 {
  function Mask(bit: nat): bv32
    requires bit < 32
  {
    1 << bit
  }

  lemma MaskBits(i: nat, j: nat)
    requires i < 32 && j < 32
    ensures Mask(i) & Mask(j) == (if i == j then Mask(i) else 0)
    ensures Mask(i) != 0
  {
  }

  predicate Meets(w: bv32, m: bv32) {
    w & m != 0
  }

  function Store(w: bv32, mask: bv32, on: bool): bv32 {
    if on then w | mask else w & !mask
  }

  lemma StoreSame(w: bv32, m: bv32, on: bool)
    requires m != 0
    ensures Meets(Store(w, m, on), m) == on
  {
  }

  lemma StoreOther(w: bv32, m: bv32, on: bool, n: bv32)
    requires m & n == 0
    ensures Meets(Store(w, m, on), n) == Meets(w, n)
  {
  }
}
