/**
 The concrete cases the source's unit tests of the driver check: every
 paging implementation of the catalog applied to an address whose index
 fields are written out level by level.
 */
module PagingInfoTests {
  import opened Bits
  import opened Results
  import opened AddrWidths
  import opened Cli
  import opened PageTableIndex
  import opened PageTableIndexTests
  import opened PagingInfo

  // x86_64 with five levels; address `0xee_1007_ffea_a3c3`.
  lemma X86_64FiveLevel5(indexBits: u64, pageOffsetBits: u64, a: VirtualAddress)
    requires indexBits == 9 && pageOffsetBits == 12 && a.value == 0xee_1007_ffea_a3c3
    ensures CalculatePageTableIndex(indexBits, pageOffsetBits, a, 5, Bits64)
            == Success(PageTableLookupMetaInfo(a, 5, 0xee, 48, 0xee_0000_0000_0000))
  {
    Pow2Table();
    LevelIs(indexBits, pageOffsetBits, a, 5, Bits64, 48, 0xee_1007_ffea_a3c3, 0x1_0000_0000_0000, 0x200, 0xee, 0xee_0000_0000_0000);
  }

  lemma X86_64FiveLevel4(indexBits: u64, pageOffsetBits: u64, a: VirtualAddress)
    requires indexBits == 9 && pageOffsetBits == 12 && a.value == 0xee_1007_ffea_a3c3
    ensures CalculatePageTableIndex(indexBits, pageOffsetBits, a, 4, Bits64)
            == Success(PageTableLookupMetaInfo(a, 4, 0x20, 39, 0x1000_0000_0000))
  {
    Pow2Table();
    LevelIs(indexBits, pageOffsetBits, a, 4, Bits64, 39, 0xee_1007_ffea_a3c3, 0x80_0000_0000, 0x200, 0x20, 0x1000_0000_0000);
  }

  lemma X86_64FiveLevel3(indexBits: u64, pageOffsetBits: u64, a: VirtualAddress)
    requires indexBits == 9 && pageOffsetBits == 12 && a.value == 0xee_1007_ffea_a3c3
    ensures CalculatePageTableIndex(indexBits, pageOffsetBits, a, 3, Bits64)
            == Success(PageTableLookupMetaInfo(a, 3, 0x1f, 30, 0x7_c000_0000))
  {
    Pow2Table();
    LevelIs(indexBits, pageOffsetBits, a, 3, Bits64, 30, 0xee_1007_ffea_a3c3, 0x4000_0000, 0x200, 0x1f, 0x7_c000_0000);
  }

  lemma X86_64FiveLevel2(indexBits: u64, pageOffsetBits: u64, a: VirtualAddress)
    requires indexBits == 9 && pageOffsetBits == 12 && a.value == 0xee_1007_ffea_a3c3
    ensures CalculatePageTableIndex(indexBits, pageOffsetBits, a, 2, Bits64)
            == Success(PageTableLookupMetaInfo(a, 2, 0x1ff, 21, 0x3fe0_0000))
  {
    Pow2Table();
    LevelIs(indexBits, pageOffsetBits, a, 2, Bits64, 21, 0xee_1007_ffea_a3c3, 0x20_0000, 0x200, 0x1ff, 0x3fe0_0000);
  }

  lemma X86_64FiveLevel1(indexBits: u64, pageOffsetBits: u64, a: VirtualAddress)
    requires indexBits == 9 && pageOffsetBits == 12 && a.value == 0xee_1007_ffea_a3c3
    ensures CalculatePageTableIndex(indexBits, pageOffsetBits, a, 1, Bits64)
            == Success(PageTableLookupMetaInfo(a, 1, 0xaa, 12, 0xa_a000))
  {
    Pow2Table();
    LevelIs(indexBits, pageOffsetBits, a, 1, Bits64, 12, 0xee_1007_ffea_a3c3, 0x1000, 0x200, 0xaa, 0xa_a000);
  }

  /** x86: the driver yields the level 1 and level 2 results, in that order. */
  method X86Trace(arch: Architecture, a: VirtualAddress) returns (r: Result<seq<PageTableLookupMetaInfo>, Panic>)
    requires arch == X86(false) && a.value == 0xffeaa3c3
    ensures r.Success? && |r.value| == 2
    ensures r.value[0] == PageTableLookupMetaInfo(a, 1, 0x2aa, 12, 0x2a_a000)
    ensures r.value[1] == PageTableLookupMetaInfo(a, 2, 0x3ff, 22, 0xffc0_0000)
  {
    var info := FromArch(arch);
    r := CalcPageTableLookupMetaInfo(info, a);
    X86Level1(info.pageTableIndexBits, info.pageOffsetBits, a);
    X86Level2(info.pageTableIndexBits, info.pageOffsetBits, a);
    assert r.value[0] == LevelResult(info, a, 1).value;
    assert r.value[1] == LevelResult(info, a, 2).value;
  }

  /** x86 with PAE: three results, the third level with a two-bit index. */
  method X86PaeTrace(arch: Architecture, a: VirtualAddress) returns (r: Result<seq<PageTableLookupMetaInfo>, Panic>)
    requires arch == X86(true) && a.value == 0xbfea_a3c3
    ensures r.Success? && |r.value| == 3
    ensures r.value[0] == PageTableLookupMetaInfo(a, 1, 0xaa, 12, 0xa_a000)
    ensures r.value[1] == PageTableLookupMetaInfo(a, 2, 0x1ff, 21, 0x3fe0_0000)
    ensures r.value[2] == PageTableLookupMetaInfo(a, 3, 0x2, 30, 0x8000_0000)
  {
    var info := FromArch(arch);
    r := CalcPageTableLookupMetaInfo(info, a);
    X86PaeLevel1(info.pageTableIndexBits, info.pageOffsetBits, a);
    X86PaeLevel2(info.pageTableIndexBits, info.pageOffsetBits, a);
    X86PaeLevel3(info.pageTableIndexBits, info.pageOffsetBits, a);
    assert r.value[0] == LevelResult(info, a, 1).value;
    assert r.value[1] == LevelResult(info, a, 2).value;
    assert r.value[2] == LevelResult(info, a, 3).value;
  }

  /** x86_64: four results from level 1 up to level 4. */
  method X86_64Trace(arch: Architecture, a: VirtualAddress) returns (r: Result<seq<PageTableLookupMetaInfo>, Panic>)
    requires arch == X86_64(false) && a.value == 0x1007_ffea_a3c3
    ensures r.Success? && |r.value| == 4
    ensures r.value[0] == PageTableLookupMetaInfo(a, 1, 0xaa, 12, 0xa_a000)
    ensures r.value[1] == PageTableLookupMetaInfo(a, 2, 0x1ff, 21, 0x3fe0_0000)
    ensures r.value[2] == PageTableLookupMetaInfo(a, 3, 0x1f, 30, 0x7_c000_0000)
    ensures r.value[3] == PageTableLookupMetaInfo(a, 4, 0x20, 39, 0x1000_0000_0000)
  {
    var info := FromArch(arch);
    r := CalcPageTableLookupMetaInfo(info, a);
    X86_64Level1(info.pageTableIndexBits, info.pageOffsetBits, a);
    X86_64Level2(info.pageTableIndexBits, info.pageOffsetBits, a);
    X86_64Level3(info.pageTableIndexBits, info.pageOffsetBits, a);
    X86_64Level4(info.pageTableIndexBits, info.pageOffsetBits, a);
    assert r.value[0] == LevelResult(info, a, 1).value;
    assert r.value[1] == LevelResult(info, a, 2).value;
    assert r.value[2] == LevelResult(info, a, 3).value;
    assert r.value[3] == LevelResult(info, a, 4).value;
  }

  /** x86_64 with five levels: five results from level 1 up to level 5. */
  method X86_64FiveLevelTrace(arch: Architecture, a: VirtualAddress) returns (r: Result<seq<PageTableLookupMetaInfo>, Panic>)
    requires arch == X86_64(true) && a.value == 0xee_1007_ffea_a3c3
    ensures r.Success? && |r.value| == 5
    ensures r.value[0] == PageTableLookupMetaInfo(a, 1, 0xaa, 12, 0xa_a000)
    ensures r.value[1] == PageTableLookupMetaInfo(a, 2, 0x1ff, 21, 0x3fe0_0000)
    ensures r.value[2] == PageTableLookupMetaInfo(a, 3, 0x1f, 30, 0x7_c000_0000)
    ensures r.value[3] == PageTableLookupMetaInfo(a, 4, 0x20, 39, 0x1000_0000_0000)
    ensures r.value[4] == PageTableLookupMetaInfo(a, 5, 0xee, 48, 0xee_0000_0000_0000)
  {
    var info := FromArch(arch);
    r := CalcPageTableLookupMetaInfo(info, a);
    X86_64FiveLevel1(info.pageTableIndexBits, info.pageOffsetBits, a);
    X86_64FiveLevel2(info.pageTableIndexBits, info.pageOffsetBits, a);
    X86_64FiveLevel3(info.pageTableIndexBits, info.pageOffsetBits, a);
    X86_64FiveLevel4(info.pageTableIndexBits, info.pageOffsetBits, a);
    X86_64FiveLevel5(info.pageTableIndexBits, info.pageOffsetBits, a);
    assert r.value[0] == LevelResult(info, a, 1).value;
    assert r.value[1] == LevelResult(info, a, 2).value;
    assert r.value[2] == LevelResult(info, a, 3).value;
    assert r.value[3] == LevelResult(info, a, 4).value;
    assert r.value[4] == LevelResult(info, a, 5).value;
  }
}
