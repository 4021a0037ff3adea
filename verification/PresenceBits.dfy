/**
  `_has_bits_[0]`: the operations on the 32-bit word, and the set of its one bits, in which the classes'
  invariants are stated. What the word's tests and updates do to that set is proved here, once.
 */
module PresenceBits {

  /** `(_has_bits_[0] & mask) != 0`: has_f with the mask of one bit, a group guard with eight. */
  predicate Test(h: bv32, mask: bv32) { h & mask != 0 }

  /** `_has_bits_[0] |= mask`. */
  function SetBits(h: bv32, mask: bv32): bv32 { h | mask }

  /** `_has_bits_[0] &= ~mask`. */
  function ClearBits(h: bv32, mask: bv32): bv32 { h & !mask }

  function LowMask(i: nat): bv32
    requires i < 16
  {
    if i == 0 then 0x1
    else if i == 1 then 0x2
    else if i == 2 then 0x4
    else if i == 3 then 0x8
    else if i == 4 then 0x10
    else if i == 5 then 0x20
    else if i == 6 then 0x40
    else if i == 7 then 0x80
    else if i == 8 then 0x100
    else if i == 9 then 0x200
    else if i == 10 then 0x400
    else if i == 11 then 0x800
    else if i == 12 then 0x1000
    else if i == 13 then 0x2000
    else if i == 14 then 0x4000
    else 0x8000
  }

  function High(a: bv32): bv32 { a << 16 }

  /** The mask of bit `i`. */
  function Mask(i: nat): bv32
    requires i < 32
  {
    if i < 16 then LowMask(i) else High(LowMask(i - 16))
  }

  /** The one bits of the word. */
  function BitsOf(h: bv32): set<nat> { set i: nat | i < 32 && Test(h, Mask(i)) }

  predicate AnyBit(bits: set<nat>, k: nat) { exists i: nat :: i in bits && k <= i < k + 8 }

  // ---------------------------------------------------------------------------------------- single bits

  predicate Apart(a: bv32, b: bv32) { a & b == 0 }

  /** A mask of the lower half of the word. */
  predicate Low(a: bv32) { a != 0 && a & 0xFFFF_0000 == 0 }

  lemma LowMaskIsLow(i: nat)
    requires i < 16
    ensures Low(LowMask(i))
  {
  }

  lemma LowMasksAreApart(i: nat, j: nat)
    requires i < 16 && j < 16 && i != j
    ensures Apart(LowMask(i), LowMask(j))
  {
  }

  lemma Shifted(a: bv32, b: bv32)
    requires Low(a) && Low(b)
    ensures High(a) != 0 && Apart(a, High(b)) && Apart(High(b), a)
  {
  }

  lemma ShiftedApart(a: bv32, b: bv32)
    requires Apart(a, b)
    ensures Apart(High(a), High(b))
  {
  }

  lemma MaskIsNotZero(i: nat)
    requires i < 32
    ensures Mask(i) != 0
  {
    hide LowMask, High;
    LowMaskIsLow(i % 16);
    Shifted(LowMask(i % 16), LowMask(i % 16));
  }

  lemma MasksAreApart(i: nat, j: nat)
    requires i < 32 && j < 32 && i != j
    ensures Apart(Mask(i), Mask(j))
  {
    hide LowMask, Apart, Low, High;
    LowMaskIsLow(i % 16);
    LowMaskIsLow(j % 16);
    Shifted(LowMask(i % 16), LowMask(j % 16));
    Shifted(LowMask(j % 16), LowMask(i % 16));
    if i % 16 != j % 16 {
      LowMasksAreApart(i % 16, j % 16);
      ShiftedApart(LowMask(i % 16), LowMask(j % 16));
    }
  }

  lemma SameUnder(a: bv32, b: bv32, mask: bv32)
    requires a & mask == b & mask
    ensures Test(a, mask) == Test(b, mask)
  {
  }

  lemma SetElsewhere(h: bv32, mask: bv32, other: bv32)
    requires Apart(mask, other)
    ensures Test(SetBits(h, mask), other) == Test(h, other)
  {
    hide Test;
    SameUnder(SetBits(h, mask), h, other);
  }

  lemma ClearElsewhere(h: bv32, mask: bv32, other: bv32)
    requires Apart(mask, other)
    ensures Test(ClearBits(h, mask), other) == Test(h, other)
  {
    hide Test;
    SameUnder(ClearBits(h, mask), h, other);
  }

  lemma SetHere(h: bv32, mask: bv32)
    requires mask != 0
    ensures Test(SetBits(h, mask), mask)
  {
  }

  lemma ClearHere(h: bv32, mask: bv32)
    ensures !Test(ClearBits(h, mask), mask)
  {
  }

  lemma NoBits()
    ensures BitsOf(0) == {}
  {
    hide Mask;
  }

  /** has_f tells whether its bit is in the set. */
  lemma TestOfBit(h: bv32, i: nat, mask: bv32)
    requires i < 32 && mask == Mask(i)
    ensures Test(h, mask) <==> i in BitsOf(h)
  {
    hide Test, Mask;
  }

  /** set_has_f adds its bit to the set and no other. */
  lemma SetOneBit(h: bv32, i: nat, mask: bv32)
    requires i < 32 && mask == Mask(i)
    ensures BitsOf(SetBits(h, mask)) == BitsOf(h) + {i}
  {
    hide Test, Mask, SetBits, Apart;
    MaskIsNotZero(i);
    SetHere(h, mask);
    forall j: nat | j < 32 && j != i
      ensures Test(SetBits(h, mask), Mask(j)) == Test(h, Mask(j))
    {
      MasksAreApart(i, j);
      SetElsewhere(h, mask, Mask(j));
    }
  }

  /** clear_has_f takes its bit out of the set and no other. */
  lemma ClearOneBit(h: bv32, i: nat, mask: bv32)
    requires i < 32 && mask == Mask(i)
    ensures BitsOf(ClearBits(h, mask)) == BitsOf(h) - {i}
  {
    hide Test, Mask, ClearBits, Apart;
    ClearHere(h, mask);
    forall j: nat | j < 32 && j != i
      ensures Test(ClearBits(h, mask), Mask(j)) == Test(h, Mask(j))
    {
      MasksAreApart(i, j);
      ClearElsewhere(h, mask, Mask(j));
    }
  }

  lemma Masks()
    ensures Mask(0) == 0x1 && Mask(1) == 0x2 && Mask(2) == 0x4 && Mask(3) == 0x8
    ensures Mask(4) == 0x10 && Mask(5) == 0x20 && Mask(6) == 0x40 && Mask(7) == 0x80
    ensures Mask(8) == 0x100 && Mask(9) == 0x200 && Mask(10) == 0x400 && Mask(11) == 0x800
    ensures Mask(12) == 0x1000 && Mask(13) == 0x2000 && Mask(14) == 0x4000 && Mask(15) == 0x8000
  {
  }

  lemma Mask16()
    ensures Mask(16) == 0x10000
  {
    assert LowMask(0) == 1;
  }

  // --------------------------------------------------------------------------------------- group guards

  lemma GuardAt0(h: bv32)
    ensures Test(h, 0xFF << 0) <==>
      || Test(h, 0x1) || Test(h, 0x2) || Test(h, 0x4) || Test(h, 0x8)
      || Test(h, 0x10) || Test(h, 0x20) || Test(h, 0x40) || Test(h, 0x80)
  {
  }

  lemma BitsFrom0(h: bv32)
    ensures AnyBit(BitsOf(h), 0) <==>
      || Test(h, 0x1) || Test(h, 0x2) || Test(h, 0x4) || Test(h, 0x8)
      || Test(h, 0x10) || Test(h, 0x20) || Test(h, 0x40) || Test(h, 0x80)
  {
    hide *;
    Masks();
    AnyBitOf(h, 0);
    TestOfBit(h, 0, 0x1);
    TestOfBit(h, 1, 0x2);
    TestOfBit(h, 2, 0x4);
    TestOfBit(h, 3, 0x8);
    TestOfBit(h, 4, 0x10);
    TestOfBit(h, 5, 0x20);
    TestOfBit(h, 6, 0x40);
    TestOfBit(h, 7, 0x80);
  }

  lemma GuardAt2(h: bv32)
    ensures Test(h, 0xFF << 2) <==>
      || Test(h, 0x4) || Test(h, 0x8) || Test(h, 0x10) || Test(h, 0x20)
      || Test(h, 0x40) || Test(h, 0x80) || Test(h, 0x100) || Test(h, 0x200)
  {
  }

  lemma BitsFrom2(h: bv32)
    ensures AnyBit(BitsOf(h), 2) <==>
      || Test(h, 0x4) || Test(h, 0x8) || Test(h, 0x10) || Test(h, 0x20)
      || Test(h, 0x40) || Test(h, 0x80) || Test(h, 0x100) || Test(h, 0x200)
  {
    hide *;
    Masks();
    AnyBitOf(h, 2);
    TestOfBit(h, 2, 0x4);
    TestOfBit(h, 3, 0x8);
    TestOfBit(h, 4, 0x10);
    TestOfBit(h, 5, 0x20);
    TestOfBit(h, 6, 0x40);
    TestOfBit(h, 7, 0x80);
    TestOfBit(h, 8, 0x100);
    TestOfBit(h, 9, 0x200);
  }

  lemma GuardAt9(h: bv32)
    ensures Test(h, 0xFF << 9) <==>
      || Test(h, 0x200) || Test(h, 0x400) || Test(h, 0x800) || Test(h, 0x1000)
      || Test(h, 0x2000) || Test(h, 0x4000) || Test(h, 0x8000) || Test(h, 0x10000)
  {
  }

  lemma BitsFrom9(h: bv32)
    ensures AnyBit(BitsOf(h), 9) <==>
      || Test(h, 0x200) || Test(h, 0x400) || Test(h, 0x800) || Test(h, 0x1000)
      || Test(h, 0x2000) || Test(h, 0x4000) || Test(h, 0x8000) || Test(h, 0x10000)
  {
    hide *;
    Masks();
    Mask16();
    AnyBitOf(h, 9);
    TestOfBit(h, 9, 0x200);
    TestOfBit(h, 10, 0x400);
    TestOfBit(h, 11, 0x800);
    TestOfBit(h, 12, 0x1000);
    TestOfBit(h, 13, 0x2000);
    TestOfBit(h, 14, 0x4000);
    TestOfBit(h, 15, 0x8000);
    TestOfBit(h, 16, 0x10000);
  }

  lemma AnyBitOf(h: bv32, k: nat)
    ensures AnyBit(BitsOf(h), k) <==>
      || k in BitsOf(h) || k + 1 in BitsOf(h) || k + 2 in BitsOf(h) || k + 3 in BitsOf(h)
      || k + 4 in BitsOf(h) || k + 5 in BitsOf(h) || k + 6 in BitsOf(h) || k + 7 in BitsOf(h)
  {
    hide BitsOf;
    if AnyBit(BitsOf(h), k) {
      var i: nat :| i in BitsOf(h) && k <= i < k + 8;
      assert i == k || i == k + 1 || i == k + 2 || i == k + 3 || i == k + 4 || i == k + 5 || i == k + 6 || i == k + 7;
    }
  }

  /** The three guards in use; the one at bit 2 reaches up to bit 9, where the next group starts. */
  lemma GuardsTestTheirBits(h: bv32)
    ensures Test(h, 0xFF << 0) <==> AnyBit(BitsOf(h), 0)
    ensures Test(h, 0xFF << 2) <==> AnyBit(BitsOf(h), 2)
    ensures Test(h, 0xFF << 9) <==> AnyBit(BitsOf(h), 9)
  {
    hide *;
    GuardAt0(h);
    BitsFrom0(h);
    GuardAt2(h);
    BitsFrom2(h);
    GuardAt9(h);
    BitsFrom9(h);
  }
}
