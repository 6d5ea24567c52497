/**
 The index calculator: for one page-table level it derives the shift of the
 level's index field, the index into that level's table, and the address with
 every bit outside the field cleared.
 */
module PageTableIndex {
  import opened Bits
  import opened Results
  import opened AddrWidths
  import opened Cli
  import opened Bitmasks

  /** What one level contributes to the lookup of one address. */
  datatype PageTableLookupMetaInfo = PageTableLookupMetaInfo(
    vAddr: VirtualAddress,
    level: u64,
    index: u64,
    shift: u64,
    relevantPartOfAddr: u64)

  /** The address as the calculator sees it: 32-bit addresses lose their upper half. */
  function ClampToWidth(addr: u64, w: AddrWidth): (a: u64)
    ensures a == addr % Pow2(AsU64(w))
  {
    if w == Bits32 then
      LowHalf(addr);
      And(addr, 0xFFFF_FFFF)
    else
      WholeWord(addr);
      addr
  }

  lemma LowHalf(addr: u64)
    ensures And(addr, 0xFFFF_FFFF) == addr % Pow2(32)
  {
    Pow2Constants();
    AndLowOnes(addr, 32);
  }

  lemma WholeWord(addr: u64)
    ensures addr % Pow2(64) == addr
  {
    Pow2Constants();
    ModOfSmaller(addr, Pow2(64));
  }

  /**
   `calculate_page_table_index`. Panics unless `index_bits`, `page_offset_bits`
   and `level` are positive; computes the shift in `u64` arithmetic (which
   panics on overflow) and shifts right by it (which panics for 64 or more);
   the mask needs at most 64 ones.
   */
  function CalculatePageTableIndex(
    indexBits: u64,
    pageOffsetBits: u64,
    vAddr: VirtualAddress,
    level: u64,
    addrWidth: AddrWidth
  ): (r: Result<PageTableLookupMetaInfo, Panic>)
    ensures r.Success? <==>
              && indexBits > 0 && pageOffsetBits > 0 && level > 0
              && indexBits * (level - 1) + pageOffsetBits < 64
              && indexBits <= 64
    ensures indexBits == 0 ==> r == Failure(IndexBitsZero)
    ensures indexBits > 0 && pageOffsetBits == 0 ==> r == Failure(PageOffsetBitsZero)
    ensures indexBits > 0 && pageOffsetBits > 0 && level == 0 ==> r == Failure(LevelZero)
    ensures r.Success? ==>
              && r.value.vAddr == vAddr
              && r.value.level == level
              && r.value.shift == indexBits * (level - 1) + pageOffsetBits
  {
    if indexBits == 0 then Failure(IndexBitsZero)
    else if pageOffsetBits == 0 then Failure(PageOffsetBitsZero)
    else if level == 0 then Failure(LevelZero)
    else
      var addr := ClampToWidth(vAddr.value, addrWidth);
      var levelsBelow: nat := level - 1;
      var shift: nat := indexBits * levelsBelow + pageOffsetBits;
      assert shift == indexBits * (level - 1) + pageOffsetBits;
      if shift >= U64_MODULUS then Failure(ArithmeticOverflow)
      else if shift >= 64 then Failure(ShiftOverflow)
      else if indexBits > 64 then Failure(MaskTooWide)
      else Success(Lookup(indexBits, vAddr, level, shift, addr))
  }

  /** The calculator's result once its arguments are known to be in range. */
  function Lookup(indexBits: nat, vAddr: VirtualAddress, level: u64, shift: nat, addr: u64): PageTableLookupMetaInfo
    requires indexBits <= 64 && shift < 64
  {
    var bitmask := Bitmask(indexBits);
    var index := And(Shr(addr, shift), bitmask);
    var relevantPartOfAddr := And(addr, Shl(bitmask, shift));
    PageTableLookupMetaInfo(vAddr, level, index, shift, relevantPartOfAddr)
  }

  /**
   Whether the calculator returns a result: its three asserts pass, the shift
   is computed without overflow and stays below 64, and the mask is at most
   64 bits wide. The address and its width play no part.
   */
  predicate Computes(indexBits: u64, pageOffsetBits: u64, level: u64)
  {
    && indexBits > 0 && pageOffsetBits > 0 && level > 0
    && indexBits * (level - 1) + pageOffsetBits < 64
    && indexBits <= 64
  }

  /** A computing call is `Lookup` at the level's shift on the clamped address. */
  lemma ComputesLookup(indexBits: u64, pageOffsetBits: u64, vAddr: VirtualAddress, level: u64, w: AddrWidth)
    requires Computes(indexBits, pageOffsetBits, level)
    ensures var m := CalculatePageTableIndex(indexBits, pageOffsetBits, vAddr, level, w).value;
            && indexBits <= 64 && m.shift < 64
            && m == Lookup(indexBits, vAddr, level, m.shift, ClampToWidth(vAddr.value, w))
  {
  }

  /** Bit `k` of the index is bit `shift + k` of the clamped address, for `k < index_bits`. */
  lemma IndexBits(indexBits: u64, pageOffsetBits: u64, vAddr: VirtualAddress, level: u64, w: AddrWidth)
    requires Computes(indexBits, pageOffsetBits, level)
    ensures var m := CalculatePageTableIndex(indexBits, pageOffsetBits, vAddr, level, w).value;
            forall k: nat :: BitSet(m.index, k) <==> k < indexBits && BitSet(ClampToWidth(vAddr.value, w), m.shift + k)
  {
    var m := CalculatePageTableIndex(indexBits, pageOffsetBits, vAddr, level, w).value;
    var addr := ClampToWidth(vAddr.value, w);
    ComputesLookup(indexBits, pageOffsetBits, vAddr, level, w);
    assert m.index == And(Shr(addr, m.shift), Bitmask(indexBits));
    IndexField(addr, indexBits, m.shift);
  }

  /** The `n`-bit field at `shift` of `addr` holds bits `shift .. shift + n` of `addr`. */
  lemma IndexField(addr: u64, n: nat, shift: nat)
    requires n <= 64 && shift < 64
    ensures forall k: nat :: BitSet(And(Shr(addr, shift), Bitmask(n)), k) <==> k < n && BitSet(addr, shift + k)
  {
    forall k: nat
      ensures BitSet(And(Shr(addr, shift), Bitmask(n)), k) <==> k < n && BitSet(addr, shift + k)
    {
      IndexFieldBit(addr, n, shift, k);
    }
  }

  /** One bit of `IndexField`. */
  lemma IndexFieldBit(addr: u64, n: nat, shift: nat, k: nat)
    requires n <= 64 && shift < 64
    ensures BitSet(And(Shr(addr, shift), Bitmask(n)), k) <==> k < n && BitSet(addr, shift + k)
  {
    var mask := Bitmask(n);
    var down := Shr(addr, shift);
    BitsOfAnd(down, mask, k);
    ShrBit(addr, shift, k);
    BitsOfLowOnes(n, k);
  }

  /** The index is the `index_bits`-wide field starting at bit `shift`, so it addresses a slot of one table. */
  lemma IndexInTable(indexBits: u64, pageOffsetBits: u64, vAddr: VirtualAddress, level: u64, w: AddrWidth)
    requires Computes(indexBits, pageOffsetBits, level)
    ensures var m := CalculatePageTableIndex(indexBits, pageOffsetBits, vAddr, level, w).value;
            && m.index == (ClampToWidth(vAddr.value, w) / Pow2(m.shift)) % Pow2(indexBits)
            && m.index < Pow2(indexBits)
  {
    var m := CalculatePageTableIndex(indexBits, pageOffsetBits, vAddr, level, w).value;
    var addr := ClampToWidth(vAddr.value, w);
    AndLowOnes(Shr(addr, m.shift), indexBits);
  }

  /**
   The relevant part keeps exactly the bits of the clamped address that lie
   in `[shift, shift + index_bits)`: it is a submask of the address and has
   nothing outside the field.
   */
  lemma RelevantPartBits(indexBits: u64, pageOffsetBits: u64, vAddr: VirtualAddress, level: u64, w: AddrWidth)
    requires Computes(indexBits, pageOffsetBits, level)
    ensures var m := CalculatePageTableIndex(indexBits, pageOffsetBits, vAddr, level, w).value;
            forall j: nat :: BitSet(m.relevantPartOfAddr, j) <==>
                               BitSet(ClampToWidth(vAddr.value, w), j) && m.shift <= j < m.shift + indexBits
  {
    var m := CalculatePageTableIndex(indexBits, pageOffsetBits, vAddr, level, w).value;
    ComputesLookup(indexBits, pageOffsetBits, vAddr, level, w);
    FieldOfAddress(ClampToWidth(vAddr.value, w), indexBits, m.shift);
  }

  /** Masking an address with `n` ones shifted left by `shift` keeps the bits `[shift, shift + n)`. */
  lemma FieldOfAddress(addr: u64, n: nat, shift: nat)
    requires n <= 64 && shift < 64
    ensures forall j: nat :: BitSet(And(addr, Shl(Bitmask(n), shift)), j) <==> BitSet(addr, j) && shift <= j < shift + n
  {
    forall j: nat
      ensures BitSet(And(addr, Shl(Bitmask(n), shift)), j) <==> BitSet(addr, j) && shift <= j < shift + n
    {
      FieldBit(addr, n, shift, j);
    }
  }

  /** One bit of `FieldOfAddress`. */
  lemma FieldBit(addr: u64, n: nat, shift: nat, j: nat)
    requires n <= 64 && shift < 64
    ensures BitSet(And(addr, Shl(Bitmask(n), shift)), j) <==> BitSet(addr, j) && shift <= j < shift + n
  {
    var mask := Bitmask(n);
    var shifted := Shl(mask, shift);
    assert BitSet(shifted, j) <==> j < 64 && shift <= j && BitSet(mask, j - shift) by {
      ShlBit(mask, shift, j);
    }
    assert shift <= j ==> (BitSet(mask, j - shift) <==> j - shift < n) by {
      if shift <= j {
        BitsOfLowOnes(n, j - shift);
      }
    }
    assert 64 <= j ==> !BitSet(addr, j) by {
      if 64 <= j {
        Pow2Constants();
        HighBitsClear(addr, 64, j);
      }
    }
    BitsOfAnd(addr, shifted, j);
  }

  /**
   The relevant part is the index shifted back into place, and that shift
   loses no bit: the index only holds bits the address had at `shift` and above.
   */
  lemma RelevantPartIsShiftedIndex(indexBits: u64, pageOffsetBits: u64, vAddr: VirtualAddress, level: u64, w: AddrWidth)
    requires Computes(indexBits, pageOffsetBits, level)
    ensures var m := CalculatePageTableIndex(indexBits, pageOffsetBits, vAddr, level, w).value;
            && m.relevantPartOfAddr == Shl(m.index, m.shift)
            && m.relevantPartOfAddr == m.index * Pow2(m.shift)
  {
    var m := CalculatePageTableIndex(indexBits, pageOffsetBits, vAddr, level, w).value;
    var addr := ClampToWidth(vAddr.value, w);
    ComputesLookup(indexBits, pageOffsetBits, vAddr, level, w);
    FieldIsShiftedIndex(addr, indexBits, m.shift);
  }

  /** The field kept in place is the field moved down to bit 0, shifted back up without loss. */
  lemma FieldIsShiftedIndex(addr: u64, n: nat, shift: nat)
    requires n <= 64 && shift < 64
    ensures var index := And(Shr(addr, shift), Bitmask(n));
            var relevant := And(addr, Shl(Bitmask(n), shift));
            relevant == index * Pow2(shift) && relevant == Shl(index, shift)
  {
    var index := And(Shr(addr, shift), Bitmask(n));
    var relevant := And(addr, Shl(Bitmask(n), shift));
    IndexField(addr, n, shift);
    FieldOfAddress(addr, n, shift);
    SameBitsAsShifted(relevant, index, shift, n, addr);
    assert relevant < U64_MODULUS;
    ShlWithoutLoss(index, shift);
  }

  /** A left shift that loses no bits is a multiplication. */
  lemma ShlWithoutLoss(x: u64, s: nat)
    requires s < 64 && x * Pow2(s) < U64_MODULUS
    ensures Shl(x, s) == x * Pow2(s)
  {
  }

  /**
   A number holding the bits `[shift, shift + n)` of `addr` and a number
   holding the same field moved down to bit 0 differ by the factor `2^shift`.
   */
  lemma SameBitsAsShifted(relevant: nat, index: nat, shift: nat, n: nat, addr: nat)
    requires forall k: nat :: BitSet(index, k) <==> k < n && BitSet(addr, shift + k)
    requires forall j: nat :: BitSet(relevant, j) <==> BitSet(addr, j) && shift <= j < shift + n
    ensures relevant == index * Pow2(shift)
  {
    forall j: nat
      ensures BitSet(relevant, j) <==> BitSet(index * Pow2(shift), j)
    {
      BitsOfMul(index, shift, j);
      if shift <= j {
        assert shift + (j - shift) == j;
      }
    }
    BitsDetermine(relevant, index * Pow2(shift));
  }

  /**
   With 32-bit addresses only the low half of the address matters: two
   addresses that agree there give the same index, shift and relevant part.
   */
  lemma Bits32IgnoresUpperHalf(indexBits: u64, pageOffsetBits: u64, a: VirtualAddress, b: VirtualAddress, level: u64)
    requires a.value % U32_MODULUS == b.value % U32_MODULUS
    ensures var ra := CalculatePageTableIndex(indexBits, pageOffsetBits, a, level, Bits32);
            var rb := CalculatePageTableIndex(indexBits, pageOffsetBits, b, level, Bits32);
            && ra.Success? == rb.Success?
            && (ra.Success? ==>
                  && ra.value.index == rb.value.index
                  && ra.value.shift == rb.value.shift
                  && ra.value.relevantPartOfAddr == rb.value.relevantPartOfAddr)
  {
    Pow2Constants();
    assert ClampToWidth(a.value, Bits32) == ClampToWidth(b.value, Bits32);
  }

  /** An address that already fits in 32 bits gives the same result under either width. */
  lemma NarrowAddressIgnoresWidth(indexBits: u64, pageOffsetBits: u64, a: VirtualAddress, level: u64)
    requires a.value < U32_MODULUS
    ensures CalculatePageTableIndex(indexBits, pageOffsetBits, a, level, Bits32)
            == CalculatePageTableIndex(indexBits, pageOffsetBits, a, level, Bits64)
  {
    Pow2Constants();
    assert ClampToWidth(a.value, Bits32) == ClampToWidth(a.value, Bits64);
  }
}
