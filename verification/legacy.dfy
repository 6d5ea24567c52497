/**
 The older, const-generic copy of the index calculator: it checks only the
 level, applies no address-width clamp and builds its mask with
 `num_to_bitmask`. It returns the index, the relevant part of the address
 and the shift, in that order.
 */
module Legacy {
  import opened Bits
  import opened Results
  import opened AddrWidths
  import opened Cli
  import opened Bitmasks
  import opened PageTableIndex
  import PageTableIndexTests

  /** `calculate_page_table_index::<INDEX_BITS, PAGE_OFFSET_BITS>(addr, level)`. */
  function OldCalculatePageTableIndex(indexBits: u64, pageOffsetBits: u64, addr: u64, level: u64)
    : (r: Result<(u64, u64, u64), Panic>)
    ensures level == 0 ==> r == Failure(LevelZero)
    ensures r.Success? <==>
              && level > 0
              && indexBits * (level - 1) + pageOffsetBits < 64
              && indexBits <= 64
    ensures r.Success? ==> r.value.2 == indexBits * (level - 1) + pageOffsetBits
  {
    if level == 0 then Failure(LevelZero)
    else
      var levelsBelow: nat := level - 1;
      var shift: nat := indexBits * levelsBelow + pageOffsetBits;
      if shift >= U64_MODULUS then Failure(ArithmeticOverflow)
      else if shift >= 64 then Failure(ShiftOverflow)
      else if indexBits > 64 then Failure(MaskTooWide)
      else
        var bitmask := Bitmask(indexBits);
        var index := And(Shr(addr, shift), bitmask);
        var relevantPartOfAddr := And(addr, Shl(bitmask, shift));
        Success((index, relevantPartOfAddr, shift))
  }

  /**
   For positive widths the old calculator is the new one with 64-bit
   addresses: the same panics, and otherwise the same index, relevant part
   and shift.
   */
  lemma OldMatchesNewOn64Bits(indexBits: u64, pageOffsetBits: u64, addr: u64, level: u64)
    requires indexBits > 0 && pageOffsetBits > 0
    ensures var o := OldCalculatePageTableIndex(indexBits, pageOffsetBits, addr, level);
            var n := CalculatePageTableIndex(indexBits, pageOffsetBits, VirtualAddress(addr), level, Bits64);
            && o.Success? == n.Success?
            && (o.Failure? ==> o.error == n.error)
            && (o.Success? ==> o.value == (n.value.index, n.value.relevantPartOfAddr, n.value.shift))
  {
    Pow2Constants();
    assert ClampToWidth(addr, Bits64) == addr;
  }

  /**
   The old calculator lacks the new one's checks of the widths: it accepts
   zero index bits (yielding index 0 and an empty field) and zero page-offset
   bits, which the new calculator rejects.
   */
  lemma OldAcceptsZeroWidths(pageOffsetBits: u64, indexBits: u64, addr: u64, level: u64)
    requires level > 0 && pageOffsetBits < 64
    requires 0 < indexBits < 64
    ensures OldCalculatePageTableIndex(0, pageOffsetBits, addr, level) == Success((0, 0, pageOffsetBits))
    ensures CalculatePageTableIndex(0, pageOffsetBits, VirtualAddress(addr), level, Bits64) == Failure(IndexBitsZero)
    ensures OldCalculatePageTableIndex(indexBits, 0, addr, 1).Success?
    ensures CalculatePageTableIndex(indexBits, 0, VirtualAddress(addr), 1, Bits64) == Failure(PageOffsetBitsZero)
  {
    var shifted := Shr(addr, pageOffsetBits);
    assert And(shifted, 0) == 0;
    assert Shl(0, pageOffsetBits) == 0;
    assert And(addr, 0) == 0;
  }

  /** The old calculator's x86 test: 10 index bits, 12 offset bits, address `0xffeaa3c3`. */
  lemma OldX86Vectors(indexBits: u64, pageOffsetBits: u64, addr: u64)
    requires indexBits == 10 && pageOffsetBits == 12 && addr == 0xffeaa3c3
    ensures OldCalculatePageTableIndex(indexBits, pageOffsetBits, addr, 2) == Success((0x3ff, 0xffc0_0000, 22))
    ensures OldCalculatePageTableIndex(indexBits, pageOffsetBits, addr, 1) == Success((0x2aa, 0x2a_a000, 12))
  {
    var a := VirtualAddress(addr);
    OldMatchesNewOn64Bits(indexBits, pageOffsetBits, addr, 2);
    OldMatchesNewOn64Bits(indexBits, pageOffsetBits, addr, 1);
    NarrowAddressIgnoresWidth(indexBits, pageOffsetBits, a, 2);
    NarrowAddressIgnoresWidth(indexBits, pageOffsetBits, a, 1);
    PageTableIndexTests.X86Level2(indexBits, pageOffsetBits, a);
    PageTableIndexTests.X86Level1(indexBits, pageOffsetBits, a);
  }

  /** The old calculator's x86_64 test: 9 index bits, 12 offset bits, address `0x1007_ffea_a3c3`. */
  lemma OldX86_64Vectors(indexBits: u64, pageOffsetBits: u64, addr: u64)
    requires indexBits == 9 && pageOffsetBits == 12 && addr == 0x1007_ffea_a3c3
    ensures OldCalculatePageTableIndex(indexBits, pageOffsetBits, addr, 4) == Success((0x20, 0x1000_0000_0000, 39))
    ensures OldCalculatePageTableIndex(indexBits, pageOffsetBits, addr, 3) == Success((0x1f, 0x7_c000_0000, 30))
    ensures OldCalculatePageTableIndex(indexBits, pageOffsetBits, addr, 2) == Success((0x1ff, 0x3fe0_0000, 21))
    ensures OldCalculatePageTableIndex(indexBits, pageOffsetBits, addr, 1) == Success((0xaa, 0xa_a000, 12))
  {
    var a := VirtualAddress(addr);
    OldMatchesNewOn64Bits(indexBits, pageOffsetBits, addr, 4);
    OldMatchesNewOn64Bits(indexBits, pageOffsetBits, addr, 3);
    OldMatchesNewOn64Bits(indexBits, pageOffsetBits, addr, 2);
    OldMatchesNewOn64Bits(indexBits, pageOffsetBits, addr, 1);
    PageTableIndexTests.X86_64Level4(indexBits, pageOffsetBits, a);
    PageTableIndexTests.X86_64Level3(indexBits, pageOffsetBits, a);
    PageTableIndexTests.X86_64Level2(indexBits, pageOffsetBits, a);
    PageTableIndexTests.X86_64Level1(indexBits, pageOffsetBits, a);
  }
}
