/**
 The paging implementations the calculator knows, the selection of one of
 them from the command-line architecture, and the driver that runs the index
 calculator for every level of a paging implementation.
 */
module PagingInfo {
  import opened Bits
  import opened Results
  import opened AddrWidths
  import opened Cli
  import opened PageTableIndex

  /**
   The numeric characteristics of a paging implementation: `2^pageOffsetBits`
   is the page size, `2^pageTableIndexBits` the number of entries of a table.
   */
  datatype PagingImplInfo = PagingImplInfo(
    addrWidth: AddrWidth,
    pageOffsetBits: u64,
    pageTableIndexBits: u64,
    pageTableEntrySize: u64,
    levels: u64)

  /** x86 32-bit paging: two levels of 1024 four-byte entries. */
  const X86_PAGING := PagingImplInfo(Bits32, 12, 10, 4, 2)

  /** x86 32-bit paging with PAE: three levels of 512 eight-byte entries. */
  const X86_PAE_PAGING := PagingImplInfo(Bits32, 12, 9, 8, 3)

  /** x86_64 paging: four levels of 512 eight-byte entries. */
  const X86_64_PAGING := PagingImplInfo(Bits64, 12, 9, 8, 4)

  /** x86_64 paging with the optional fifth level. */
  const X86_64_5LEVEL_PAGING := PagingImplInfo(Bits64, 12, 9, 8, 5)

  /** The shift of the index field of `level`, in unbounded arithmetic. */
  function LevelShift(info: PagingImplInfo, level: nat): nat
    requires level >= 1
  {
    info.pageTableIndexBits * (level - 1) + info.pageOffsetBits
  }

  /**
   A paging implementation whose every level can be computed: the calculator's
   arguments are positive and the index field of the top level starts below
   the address width.
   */
  predicate WellFormed(info: PagingImplInfo)
  {
    && info.pageTableIndexBits > 0
    && info.pageOffsetBits > 0
    && info.levels > 0
    && info.pageTableIndexBits <= 64
    && LevelShift(info, info.levels) < AsU64(info.addrWidth)
  }

  /** `PagingImplInfo::from_arch`: a total table from architecture to paging implementation. */
  function FromArch(arch: Architecture): (info: PagingImplInfo)
    ensures arch == X86(false) ==> info == PagingImplInfo(Bits32, 12, 10, 4, 2)
    ensures arch == X86(true) ==> info == PagingImplInfo(Bits32, 12, 9, 8, 3)
    ensures arch == X86_64(false) ==> info == PagingImplInfo(Bits64, 12, 9, 8, 4)
    ensures arch == X86_64(true) ==> info == PagingImplInfo(Bits64, 12, 9, 8, 5)
    ensures info.addrWidth == Bits64 <==> arch.X86_64?
    ensures WellFormed(info)
  {
    match arch
    case X86(pae) => if pae then X86_PAE_PAGING else X86_PAGING
    case X86_64(fiveLevel) => if fiveLevel then X86_64_5LEVEL_PAGING else X86_64_PAGING
  }

  /** Different architectures select different paging implementations. */
  lemma FromArchInjective(a: Architecture, b: Architecture)
    ensures FromArch(a) == FromArch(b) <==> a == b
  {
  }

  /** The calculator applied to one level of a paging implementation. */
  function LevelResult(info: PagingImplInfo, vAddr: VirtualAddress, level: u64): Result<PageTableLookupMetaInfo, Panic>
  {
    CalculatePageTableIndex(info.pageTableIndexBits, info.pageOffsetBits, vAddr, level, info.addrWidth)
  }

  /** No level of a well-formed paging implementation makes the calculator panic. */
  lemma WellFormedNeverPanics(info: PagingImplInfo, vAddr: VirtualAddress, level: u64)
    requires WellFormed(info) && 1 <= level <= info.levels
    ensures LevelResult(info, vAddr, level).Success?
    ensures LevelResult(info, vAddr, level).value.shift == LevelShift(info, level)
  {
    LevelShiftBelowWidth(info, level);
  }

  /** Every level's field starts below the address width, as the top level's does. */
  lemma LevelShiftBelowWidth(info: PagingImplInfo, level: nat)
    requires WellFormed(info) && 1 <= level <= info.levels
    ensures LevelShift(info, level) < AsU64(info.addrWidth)
  {
    MulMonotone(info.pageTableIndexBits, level - 1, info.levels - 1);
  }

  /**
   `calc_page_table_lookup_meta_info`: the calculator for levels `1 ..= levels`
   in ascending order. A panic of the calculator at some level ends the run
   with that panic.
   */
  method CalcPageTableLookupMetaInfo(info: PagingImplInfo, vAddr: VirtualAddress)
    returns (r: Result<seq<PageTableLookupMetaInfo>, Panic>)
    ensures r.Success? <==> forall level: u64 :: 1 <= level <= info.levels ==> LevelResult(info, vAddr, level).Success?
    ensures r.Success? ==> |r.value| == info.levels
    ensures r.Success? ==> forall i :: 0 <= i < |r.value| ==> r.value[i] == LevelResult(info, vAddr, (i + 1) as u64).value
    ensures r.Success? ==> forall i :: 0 <= i < |r.value| ==> r.value[i].level == i + 1 && r.value[i].vAddr == vAddr
    ensures r.Failure? ==>
              exists level: u64 ::
                && 1 <= level <= info.levels
                && LevelResult(info, vAddr, level) == Failure(r.error)
                && forall k: u64 :: 1 <= k < level ==> LevelResult(info, vAddr, k).Success?
    ensures WellFormed(info) ==> r.Success?
  {
    var level: u64 := 0;
    var trace: seq<PageTableLookupMetaInfo> := [];
    while level < info.levels
      invariant level <= info.levels
      invariant |trace| == level as int
      invariant forall k: u64 :: 1 <= k <= level ==> LevelResult(info, vAddr, k).Success?
      invariant forall i :: 0 <= i < |trace| ==> trace[i] == LevelResult(info, vAddr, (i + 1) as u64).value
    {
      level := level + 1;
      var result := LevelResult(info, vAddr, level);
      if result.Failure? {
        r := Failure(result.error);
        assert 1 <= level <= info.levels && LevelResult(info, vAddr, level) == Failure(r.error);
        if WellFormed(info) {
          WellFormedNeverPanics(info, vAddr, level);
        }
        return;
      }
      ExtendTrace(info, vAddr, level, trace, result.value);
      trace := trace + [result.value];
    }
    if WellFormed(info) {
      WellFormedAllLevels(info, vAddr);
    }
    r := Success(trace);
  }

  /** Appending the result of the next level keeps the trace in step with the levels. */
  lemma ExtendTrace(info: PagingImplInfo, vAddr: VirtualAddress, level: u64, trace: seq<PageTableLookupMetaInfo>, next: PageTableLookupMetaInfo)
    requires 1 <= level && |trace| == level as int - 1
    requires forall k: u64 :: 1 <= k < level ==> LevelResult(info, vAddr, k).Success?
    requires forall i :: 0 <= i < |trace| ==> trace[i] == LevelResult(info, vAddr, (i + 1) as u64).value
    requires LevelResult(info, vAddr, level) == Success(next)
    ensures forall k: u64 :: 1 <= k <= level ==> LevelResult(info, vAddr, k).Success?
    ensures forall i :: 0 <= i < |trace| + 1 ==> (trace + [next])[i] == LevelResult(info, vAddr, (i + 1) as u64).value
  {
  }

  /** Every level of a well-formed paging implementation computes. */
  lemma WellFormedAllLevels(info: PagingImplInfo, vAddr: VirtualAddress)
    requires WellFormed(info)
    ensures forall k: u64 :: 1 <= k <= info.levels ==> LevelResult(info, vAddr, k).Success?
  {
    forall k: u64 | 1 <= k <= info.levels
      ensures LevelResult(info, vAddr, k).Success?
    {
      WellFormedNeverPanics(info, vAddr, k);
    }
  }

  /**
   A table with all `2^index_bits` entries would fill exactly one page. The
   PAE third-level table uses only four of them (`PaeThirdLevelHasFourEntries`).
   */
  lemma TableFillsPage(arch: Architecture)
    ensures var info := FromArch(arch);
            info.pageTableEntrySize * Pow2(info.pageTableIndexBits) == Pow2(info.pageOffsetBits)
  {
    assert Pow2(2) == 4 && Pow2(3) == 8;
    Pow2Add(2, 10);
    Pow2Add(3, 9);
  }

  /**
   The number of index bits a level really has: the field is cut off at the
   address width.
   */
  function UsableIndexBits(info: PagingImplInfo, level: u64): nat
    requires WellFormed(info) && 1 <= level <= info.levels
  {
    var shift := LevelShift(info, level);
    LevelShiftBelowWidth(info, level);
    if shift + info.pageTableIndexBits > AsU64(info.addrWidth) then AsU64(info.addrWidth) - shift
    else info.pageTableIndexBits
  }

  /** Every index of a level fits into the level's usable index bits. */
  lemma IndexBelowUsableBits(info: PagingImplInfo, vAddr: VirtualAddress, level: u64)
    requires WellFormed(info) && 1 <= level <= info.levels
    ensures LevelResult(info, vAddr, level).Success?
    ensures LevelResult(info, vAddr, level).value.index < Pow2(UsableIndexBits(info, level))
  {
    var ib, w := info.pageTableIndexBits, info.addrWidth;
    var shift, width := LevelShift(info, level), AsU64(w);
    WellFormedNeverPanics(info, vAddr, level);
    var m := LevelResult(info, vAddr, level).value;
    assert m.shift == shift;
    IndexInTable(ib, info.pageOffsetBits, vAddr, level, w);
    LevelShiftBelowWidth(info, level);
    var clamped := ClampToWidth(vAddr.value, w);
    assert m.index == (clamped / Pow2(shift)) % Pow2(ib);
    assert clamped < Pow2(width);
    FieldBelowUsable(clamped, shift, ib, width);
    assert UsableIndexBits(info, level) == (if shift + ib > width then width - shift else ib);
  }

  /**
   The `ib`-bit field at `shift` of a number below `2^width` is below
   `2^(width - shift)` when the field reaches past `width`.
   */
  lemma FieldBelowUsable(x: nat, shift: nat, ib: nat, width: nat)
    requires x < Pow2(width) && shift < width
    ensures (x / Pow2(shift)) % Pow2(ib) < Pow2(if shift + ib > width then width - shift else ib)
  {
    if shift + ib > width {
      assert x < Pow2(shift + (width - shift));
      QuotientBelowPow2(x, shift, width - shift);
      ModAtMost(x / Pow2(shift), Pow2(ib));
    }
  }

  /** A number below `2^(a+b)` divided by `2^a` is below `2^b`. */
  lemma QuotientBelowPow2(x: nat, a: nat, b: nat)
    requires x < Pow2(a + b)
    ensures x / Pow2(a) < Pow2(b)
  {
    Pow2Add(a, b);
    var q := x / Pow2(a);
    assert Pow2(a) * q <= x;
    if q >= Pow2(b) {
      MulMonotone(Pow2(a), Pow2(b), q);
    }
  }

  lemma ModAtMost(x: nat, m: nat)
    requires m > 0
    ensures x % m <= x
  {
  }

  /**
   On x86 with PAE the third level's nine-bit field starts at bit 30 and so
   reaches past the 32-bit address: only `32 - 30 = 2` address bits remain,
   and its table has four usable entries.
   */
  lemma PaeThirdLevelHasFourEntries(vAddr: VirtualAddress)
    ensures LevelShift(X86_PAE_PAGING, 3) + X86_PAE_PAGING.pageTableIndexBits > AsU64(X86_PAE_PAGING.addrWidth)
    ensures UsableIndexBits(X86_PAE_PAGING, 3) == 2
    ensures LevelResult(X86_PAE_PAGING, vAddr, 3).Success?
    ensures LevelResult(X86_PAE_PAGING, vAddr, 3).value.index < 4
  {
    IndexBelowUsableBits(X86_PAE_PAGING, vAddr, 3);
    assert Pow2(2) == 4;
  }
}
