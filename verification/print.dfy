/**
 The arithmetic behind the printed report: how one level's bit row is laid
 out (zero fill on the left, the highlighted index, zero fill on the right),
 the byte offset of the selected entry, and the order in which levels are
 listed.
 */
module Print {
  import opened Bits
  import opened Results
  import opened AddrWidths
  import opened Cli
  import opened PageTableIndex
  import opened PagingInfo

  /** The three digit counts of one printed bit row. */
  datatype BitLayout = BitLayout(zeroesLeft: u64, highlighted: u64, zeroesRight: u64)

  /**
   The counts computed in `print_relevant_bits_highlighted`, in `u64`
   arithmetic whose overflow and underflow panic: `level - 1` for level 0,
   the product and sums past `u64::MAX`, and `addr_width - right` when the
   right fill is wider than the address.
   */
  function RelevantBitsLayout(meta: PageTableLookupMetaInfo, info: PagingImplInfo): (r: Result<BitLayout, Panic>)
    ensures r.Success? <==>
              && meta.level >= 1
              && LevelShift(info, meta.level) + info.pageTableIndexBits < U64_MODULUS
              && LevelShift(info, meta.level) <= AsU64(info.addrWidth)
    ensures r.Failure? ==> r.error == ArithmeticOverflow
    ensures r.Success? ==>
              && r.value.zeroesRight as nat == LevelShift(info, meta.level)
              && r.value.zeroesLeft + r.value.highlighted + r.value.zeroesRight == AsU64(info.addrWidth)
              && r.value.highlighted <= info.pageTableIndexBits
              && (r.value.highlighted == info.pageTableIndexBits || r.value.zeroesLeft == 0)
  {
    var ib := info.pageTableIndexBits;
    var width := AsU64(info.addrWidth);
    if meta.level == 0 then Failure(ArithmeticOverflow)
    else if (meta.level - 1) * ib >= U64_MODULUS then Failure(ArithmeticOverflow)
    else if info.pageOffsetBits + (meta.level - 1) * ib >= U64_MODULUS then Failure(ArithmeticOverflow)
    else
      var right: u64 := info.pageOffsetBits + (meta.level - 1) * ib;
      if right + ib >= U64_MODULUS then Failure(ArithmeticOverflow)
      else if right + ib > width then
        if right > width then Failure(ArithmeticOverflow)
        else Success(BitLayout(0, width - right, right))
      else
        Success(BitLayout(width - right - ib, ib, right))
  }

  /** The right fill of a level's row is exactly the calculator's shift for that level. */
  lemma LayoutMatchesCalculator(info: PagingImplInfo, vAddr: VirtualAddress, level: u64)
    requires WellFormed(info) && 1 <= level <= info.levels
    ensures LevelResult(info, vAddr, level).Success?
    ensures var meta := LevelResult(info, vAddr, level).value;
            var layout := RelevantBitsLayout(meta, info);
            && layout.Success?
            && layout.value.zeroesRight == meta.shift
            && layout.value.highlighted as nat == UsableIndexBits(info, level)
            && layout.value.highlighted >= 1
  {
    WellFormedNeverPanics(info, vAddr, level);
    LevelShiftBelowWidth(info, level);
  }

  /** On x86 with PAE the third level's row highlights two bits and has no left fill. */
  lemma PaeThirdLevelLayout(vAddr: VirtualAddress)
    ensures LevelResult(X86_PAE_PAGING, vAddr, 3).Success?
    ensures RelevantBitsLayout(LevelResult(X86_PAE_PAGING, vAddr, 3).value, X86_PAE_PAGING)
            == Success(BitLayout(0, 2, 30))
  {
    LayoutMatchesCalculator(X86_PAE_PAGING, vAddr, 3);
  }

  // ---------------------------------------------------------------------
  // The rendered row: "0b", left zeroes, the padded index, right zeroes
  // ---------------------------------------------------------------------

  predicate IsBinaryDigit(c: char)
  {
    c == '0' || c == '1'
  }

  predicate AllBinaryDigits(s: string)
  {
    forall i :: 0 <= i < |s| ==> IsBinaryDigit(s[i])
  }

  function Zeroes(n: nat): (s: string)
    ensures |s| == n && AllBinaryDigits(s)
  {
    seq(n, _ => '0')
  }

  function BitChar(b: nat): (c: char)
    requires b < 2
    ensures IsBinaryDigit(c) && (c == '1' <==> b == 1)
  {
    if b == 1 then '1' else '0'
  }

  /** `format!("{:b}", n)`: the binary digits of `n`, most significant first, `"0"` for zero. */
  function BinaryDigits(n: nat): (s: string)
    ensures |s| >= 1 && AllBinaryDigits(s)
  {
    if n < 2 then [BitChar(n)] else BinaryDigits(n / 2) + [BitChar(n % 2)]
  }

  /** `format!("{:0w$b}", n)`: the binary digits left-padded with zeroes to at least `w`. */
  function PadBinary(n: nat, w: nat): (s: string)
    ensures AllBinaryDigits(s)
  {
    var digits := BinaryDigits(n);
    if |digits| < w then Zeroes(w - |digits|) + digits else digits
  }

  /** The number a string of binary digits denotes, most significant first. */
  function BinaryValue(s: string): nat
    requires AllBinaryDigits(s)
  {
    if |s| == 0 then 0 else 2 * BinaryValue(s[..|s| - 1]) + (if s[|s| - 1] == '1' then 1 else 0)
  }

  /** The printed row of one level, `0b` followed by the digits. */
  function RenderRelevantBits(meta: PageTableLookupMetaInfo, info: PagingImplInfo): (r: Result<string, Panic>)
    ensures r.Success? <==> RelevantBitsLayout(meta, info).Success?
    ensures r.Success? ==> |r.value| >= 2 && r.value[..2] == "0b" && AllBinaryDigits(r.value[2..])
  {
    match RelevantBitsLayout(meta, info)
    case Failure(e) => Failure(e)
    case Success(layout) =>
      var digits := Zeroes(layout.zeroesLeft) + PadBinary(meta.index, layout.highlighted as nat) + Zeroes(layout.zeroesRight);
      assert AllBinaryDigits(digits);
      assert ("0b" + digits)[2..] == digits;
      Success("0b" + digits)
  }

  lemma {:induction false} BinaryDigitsValue(n: nat)
    ensures BinaryValue(BinaryDigits(n)) == n
  {
    if n >= 2 {
      var s := BinaryDigits(n);
      assert s[..|s| - 1] == BinaryDigits(n / 2);
      BinaryDigitsValue(n / 2);
    }
  }

  /** A number below `2^k` has at most `k` binary digits (and at least one). */
  lemma {:induction false} BinaryDigitsLength(n: nat, k: nat)
    requires k >= 1 && n < Pow2(k)
    ensures |BinaryDigits(n)| <= k
  {
    if n >= 2 {
      assert k >= 2;
      BinaryDigitsLength(n / 2, k - 1);
    }
  }

  lemma {:induction false} BinaryValueConcat(a: string, b: string)
    requires AllBinaryDigits(a) && AllBinaryDigits(b)
    ensures AllBinaryDigits(a + b)
    ensures BinaryValue(a + b) == BinaryValue(a) * Pow2(|b|) + BinaryValue(b)
  {
    var ab := a + b;
    if |b| > 0 {
      var b' := b[..|b| - 1];
      var bit := if b[|b| - 1] == '1' then 1 else 0;
      assert ab[..|ab| - 1] == a + b';
      assert ab[|ab| - 1] == b[|b| - 1];
      var va, vb' := BinaryValue(a), BinaryValue(b');
      var p := Pow2(|b'|);
      assert AllBinaryDigits(a + b') && BinaryValue(a + b') == va * p + vb' by {
        BinaryValueConcat(a, b');
      }
      assert AllBinaryDigits(ab);
      assert BinaryValue(ab) == 2 * (va * p + vb') + bit;
      assert BinaryValue(b) == 2 * vb' + bit;
      assert Pow2(|b|) == 2 * p;
      ShiftInBit(va, vb', p, bit);
    } else {
      assert ab == a;
    }
  }

  /** Appending one binary digit doubles the weight of everything before it. */
  lemma ShiftInBit(x: nat, y: nat, p: nat, bit: nat)
    ensures 2 * (x * p + y) + bit == x * (2 * p) + (2 * y + bit)
  {
  }

  lemma {:induction false} ZeroesValue(n: nat)
    ensures BinaryValue(Zeroes(n)) == 0
  {
    if n > 0 {
      assert Zeroes(n)[..n - 1] == Zeroes(n - 1);
      ZeroesValue(n - 1);
    }
  }

  /** Padding neither changes the value nor, for a fitting number, the requested width. */
  lemma PadBinaryFits(n: nat, w: nat)
    requires w >= 1 && n < Pow2(w)
    ensures |PadBinary(n, w)| == w
    ensures BinaryValue(PadBinary(n, w)) == n
  {
    var digits := BinaryDigits(n);
    BinaryDigitsLength(n, w);
    BinaryDigitsValue(n);
    if |digits| < w {
      BinaryValueConcat(Zeroes(w - |digits|), digits);
      ZeroesValue(w - |digits|);
    }
  }

  /**
   For every level of a well-formed paging implementation the row has exactly
   `addr_width` digits after `0b`, and those digits spell the index moved to
   its place in the address.
   */
  lemma RenderedRow(info: PagingImplInfo, vAddr: VirtualAddress, level: u64)
    requires WellFormed(info) && 1 <= level <= info.levels
    ensures LevelResult(info, vAddr, level).Success?
    ensures var meta := LevelResult(info, vAddr, level).value;
            var row := RenderRelevantBits(meta, info);
            && row.Success?
            && |row.value| == 2 + AsU64(info.addrWidth)
            && BinaryValue(row.value[2..]) == meta.index * Pow2(meta.shift)
  {
    LayoutMatchesCalculator(info, vAddr, level);
    IndexBelowUsableBits(info, vAddr, level);
    var meta := LevelResult(info, vAddr, level).value;
    var layout := RelevantBitsLayout(meta, info).value;
    PaddedRowValue(meta.index, layout.zeroesLeft, layout.highlighted as nat, layout.zeroesRight);
    var row := RenderRelevantBits(meta, info).value;
    assert row[2..] == Zeroes(layout.zeroesLeft) + PadBinary(meta.index, layout.highlighted as nat) + Zeroes(layout.zeroesRight);
  }

  /** Zero fill around a padded number: the length adds up and the value is the number shifted by the right fill. */
  lemma PaddedRowValue(n: nat, left: nat, w: nat, right: nat)
    requires w >= 1 && n < Pow2(w)
    ensures var digits := Zeroes(left) + PadBinary(n, w) + Zeroes(right);
            && AllBinaryDigits(digits)
            && |digits| == left + w + right
            && BinaryValue(digits) == n * Pow2(right)
  {
    var l, mid, r := Zeroes(left), PadBinary(n, w), Zeroes(right);
    PadBinaryFits(n, w);
    ZeroesValue(left);
    ZeroesValue(right);
    assert BinaryValue(l + mid) == n by {
      BinaryValueConcat(l, mid);
      assert BinaryValue(l) == 0;
    }
    assert BinaryValue(l + mid + r) == n * Pow2(right) by {
      BinaryValueConcat(l + mid, r);
      assert BinaryValue(r) == 0;
    }
  }

  /** The printed row spells the calculator's relevant part of the address. */
  lemma RenderedRowIsRelevantPart(info: PagingImplInfo, vAddr: VirtualAddress, level: u64)
    requires WellFormed(info) && 1 <= level <= info.levels
    ensures LevelResult(info, vAddr, level).Success?
    ensures var meta := LevelResult(info, vAddr, level).value;
            var row := RenderRelevantBits(meta, info);
            row.Success? && BinaryValue(row.value[2..]) == meta.relevantPartOfAddr
  {
    RenderedRow(info, vAddr, level);
    RelevantPartIsShiftedIndex(info.pageTableIndexBits, info.pageOffsetBits, vAddr, level, info.addrWidth);
  }

  // ---------------------------------------------------------------------
  // Entry offset and print order
  // ---------------------------------------------------------------------

  /** `info.index * page_table_entry_size`, which panics on `u64` overflow. */
  function EntryOffset(meta: PageTableLookupMetaInfo, info: PagingImplInfo): (r: Result<u64, Panic>)
    ensures r.Success? <==> meta.index * info.pageTableEntrySize < U64_MODULUS
    ensures r.Success? ==> r.value == meta.index * info.pageTableEntrySize
    ensures r.Failure? ==> r.error == ArithmeticOverflow
  {
    if meta.index * info.pageTableEntrySize >= U64_MODULUS then Failure(ArithmeticOverflow)
    else Success(meta.index * info.pageTableEntrySize)
  }

  /** In every catalog implementation the selected entry lies inside one page. */
  lemma EntryWithinPage(arch: Architecture, vAddr: VirtualAddress, level: u64)
    requires 1 <= level <= FromArch(arch).levels
    ensures LevelResult(FromArch(arch), vAddr, level).Success?
    ensures var info := FromArch(arch);
            var offset := EntryOffset(LevelResult(info, vAddr, level).value, info);
            && offset.Success?
            && offset.value + info.pageTableEntrySize <= Pow2(info.pageOffsetBits)
  {
    var info := FromArch(arch);
    IndexInTable(info.pageTableIndexBits, info.pageOffsetBits, vAddr, level, info.addrWidth);
    TableFillsPage(arch);
    EntryFitsPage(LevelResult(info, vAddr, level).value.index, info.pageTableEntrySize, info.pageTableIndexBits, info.pageOffsetBits);
  }

  /** An index below the table size, times an entry size that makes the table one page, stays inside the page. */
  lemma EntryFitsPage(index: nat, entrySize: nat, indexBits: nat, pageOffsetBits: nat)
    requires index < Pow2(indexBits) && entrySize * Pow2(indexBits) == Pow2(pageOffsetBits)
    requires pageOffsetBits <= 64
    ensures index * entrySize + entrySize <= Pow2(pageOffsetBits)
    ensures index * entrySize < U64_MODULUS
  {
    assert index * entrySize + entrySize <= Pow2(pageOffsetBits) by {
      MulMonotone(entrySize, index + 1, Pow2(indexBits));
      MulDistributes(entrySize, index, 1);
    }
    assert Pow2(pageOffsetBits) <= U64_MODULUS by {
      Pow2Constants();
      Pow2Monotone(pageOffsetBits, 64);
    }
  }

  /** `iter().rev()`: the levels in the order the report lists them. */
  function PrintOrder(trace: seq<PageTableLookupMetaInfo>): (p: seq<PageTableLookupMetaInfo>)
    ensures |p| == |trace|
    ensures forall i :: 0 <= i < |p| ==> p[i] == trace[|trace| - 1 - i]
  {
    if |trace| == 0 then [] else [trace[|trace| - 1]] + PrintOrder(trace[..|trace| - 1])
  }

  /** The report lists the driver's results from the top level down to level 1. */
  method ReportOrder(arch: Architecture, vAddr: VirtualAddress) returns (levels: seq<u64>)
    ensures |levels| == FromArch(arch).levels
    ensures forall i :: 0 <= i < |levels| ==> levels[i] as int == FromArch(arch).levels - i
    ensures |levels| > 0 && levels[0] == FromArch(arch).levels && levels[|levels| - 1] == 1
  {
    levels := LevelsInReportOrder(FromArch(arch), vAddr);
  }

  /** The levels of a paging implementation whose levels all compute, in report order. */
  method LevelsInReportOrder(info: PagingImplInfo, vAddr: VirtualAddress) returns (levels: seq<u64>)
    requires WellFormed(info)
    ensures |levels| == info.levels
    ensures forall i :: 0 <= i < |levels| ==> levels[i] as int == info.levels - i
    ensures |levels| > 0 && levels[0] == info.levels && levels[|levels| - 1] == 1
  {
    var r := CalcPageTableLookupMetaInfo(info, vAddr);
    var order := PrintOrder(r.value);
    levels := seq(|order|, i requires 0 <= i < |order| => order[i].level);
  }
}
