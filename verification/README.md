# paging-calculator in Dafny

A model of the arithmetic core of `paging-calculator`, a command-line tool
that takes a virtual address and an x86 paging mode and reports, for every
page-table level, which index the address selects and which of its bits do
the selecting.

The model covers:

- **The index calculator** (`calculate_page_table_index`). For one level it
  clamps the address to the address width, computes the level's shift
  `index_bits * (level - 1) + page_offset_bits`, extracts the index
  `(addr >> shift) & mask`, and extracts the field left in place
  `addr & (mask << shift)`.
- **The catalog of paging implementations** (x86, x86 with PAE, x86_64,
  x86_64 with five levels). This covers the selection `from_arch` and the
  driver that runs the calculator for levels `1 ..= levels`.
- **The address width** and its conversion to a bit count.
- **The loop-built mask `num_to_bitmask`** and the older const-generic copy
  of the calculator.
- **The command-line address value:**
  - its conversions to and from `u64` and the truncating conversion to `u32`;
  - its display text;
  - its parser, which trims, lowercases, drops underscores, requires `0x`
    and reads the rest as a hexadecimal `u64`.
- **The report arithmetic:**
  - the zero-fill and highlight counts of a level's bit row;
  - the entry offset `index * entry_size`;
  - the top-down order of the printed levels.

Rust's `u64` is a natural number below 2^64 (`Bits.u64`), so integer widths
are written out explicitly:

- `>>` is division by a power of two;
- `<<` multiplies and then drops every bit above bit 63;
- `&` and `|` are defined bit by bit, and a small bit-level theory
  (`Bits.BitSet` with extensionality) connects them to arithmetic.

Every Rust panic is an explicit `Failure` of a `Result`:

- an `assert!`;
- debug-mode overflow of `+`, `-` or `*`;
- a shift by 64 or more.

The model follows the debug-build semantics.

The mask in the live calculator comes from `bit_ops::bitops_u64::create_mask`
(src/page_table_index.rs:90), which is not part of this model.
`num_to_bitmask` (src/main.rs:59-68) stands in for it. `Bitmasks.Bitmask` is
the closed form of its loop, and the calculator uses it.

Two consequences of the code are worth stating, because the model follows
them exactly:

- **Fields that reach past the address width.** The x86 PAE descriptor
  has 3 levels of 9 index bits above a 12-bit page offset: 3 × 9 + 12 = 39
  bits, more than its 32-bit addresses have. The third level's field starts
  at bit 30, and after the 32-bit clamp only two address bits remain.
  This matches the descriptor's own description (src/paging_info.rs:119-122),
  which says the third-level table is indexed by 2 bits and has 4 entries
  (`PagingInfo.PaeThirdLevelHasFourEntries`, `Print.PaeThirdLevelLayout`).
  So a descriptor is well-formed (`PagingInfo.WellFormed`) when the top
  level's field *starts* below the address width; it may end past it.
- **The shifted mask loses its high bits.** `bitmask << shift`
  (src/page_table_index.rs:93) is Rust's `u64` shift. It does not panic for
  a shift below 64, and it silently drops every bit pushed past bit 63.
  `Bits.Shl` does the same, and `PageTableIndex.RelevantPartBits` states the
  resulting field exactly: no bit at or above 64 is kept.

## Model

| member | source | states |
|---|---|---|
| AddrWidths.AsU64 | src/addr_width.rs:32-38 | The conversion of a width into `u64` yields only the bit counts 32 or 64 |
| AddrWidths.AsU64Injective | src/addr_width.rs:33-38 | Distinct widths convert to distinct bit counts |
| AddrWidths.ToString | src/addr_width.rs:24-30 | The display text of a width is its decimal bit count followed by `-bits` |
| Bitmasks.Bitmask | src/main.rs:59-68 | `n` rounds of shift-left-then-set-bit-0 give exactly `2^n - 1` for every `n` in `0 ..= 64`; 64 rounds give all ones without a shift by the full width |
| Bitmasks.ShiftInOneBit | src/main.rs:62-66 | One round turns `k` ones into `k + 1` ones and loses no bit past bit 63 |
| Bitmasks.NumToBitmask | src/main.rs:59-68 | Panics exactly when `val > 64`; otherwise the loop returns `2^val - 1` |
| Bitmasks.BitmaskVectors | src/main.rs:308-314 | The masks of 0, 1, 2, 4 and 64 are 0, 1, 0b11, 0xf and all ones |
| PageTableIndex.ClampToWidth | src/page_table_index.rs:76-82 | The address the calculator works on is the input modulo 2^width: the low 32 bits for `Bits32`, unchanged for `Bits64` |
| PageTableIndex.CalculatePageTableIndex | src/page_table_index.rs:64-102 | Returns a result exactly when index bits, offset bits and level are positive, the shift is below 64 and the mask width is at most 64. Each failed `assert!` panics with its own cause, in source order. A result carries the input address and level unchanged and the shift `index_bits * (level - 1) + page_offset_bits` |
| PageTableIndex.IndexBits | src/page_table_index.rs:86-92 | Bit `k` of the index is bit `shift + k` of the clamped address for `k < index_bits`, and clear for every higher `k` |
| PageTableIndex.IndexField | src/page_table_index.rs:88-92 | `(addr >> shift) & mask(n)` holds exactly bits `shift .. shift + n` of `addr`, moved down to bit 0 |
| PageTableIndex.IndexInTable | src/page_table_index.rs:88-92 | The index is `(clamped / 2^shift) mod 2^index_bits`, so it is below `2^index_bits` and addresses a slot of one table |
| PageTableIndex.RelevantPartBits | src/page_table_index.rs:93 | The relevant part has bit `j` exactly when the clamped address has bit `j` and `shift <= j < shift + index_bits`: a submask of the address with nothing outside the field |
| PageTableIndex.FieldOfAddress | src/page_table_index.rs:93 | `addr & (mask(n) << shift)` keeps exactly the bits of `addr` in `[shift, shift + n)`; bits pushed past bit 63 by the shift are lost |
| PageTableIndex.RelevantPartIsShiftedIndex | src/page_table_index.rs:92-93 | Whenever the calculator returns a result, the relevant part equals `index << shift`, and that shift loses nothing (`index * 2^shift`) |
| PageTableIndex.FieldIsShiftedIndex | src/page_table_index.rs:92-93 | For every `u64` address, every mask width up to 64 and every shift below 64, the in-place field is the extracted index multiplied by `2^shift`, even when the field reaches past bit 63 |
| PageTableIndex.Bits32IgnoresUpperHalf | src/page_table_index.rs:78-82 | With `Bits32`, two addresses that agree in their low 32 bits give the same outcome, index, shift and relevant part |
| PageTableIndex.NarrowAddressIgnoresWidth | src/page_table_index.rs:78-82 | An address below 2^32 gives the same result under either width |
| PageTableIndexTests.X86Level2 | src/page_table_index.rs:113-130 | x86 level 2 of `0xffeaa3c3` has index `0b1111111111` and relevant part `0b1111111111 << 22` |
| PageTableIndexTests.X86Level1 | src/page_table_index.rs:132-147 | x86 level 1 of `0xffeaa3c3` has index `0b1010101010` and relevant part `0b1010101010 << 12` |
| PageTableIndexTests.X86PaeLevel3 | src/page_table_index.rs:155-169 | PAE level 3 of `0xbfeaa3c3` has index `0b10` and relevant part `0b10 << 30` |
| PageTableIndexTests.X86PaeLevel2 | src/page_table_index.rs:171-186 | PAE level 2 has index `0b111111111`, shift 21 |
| PageTableIndexTests.X86PaeLevel1 | src/page_table_index.rs:188-203 | PAE level 1 has index `0b010101010`, shift 12 |
| PageTableIndexTests.X86_64Level4 | src/page_table_index.rs:212-229 | x86_64 level 4 of `0x1007_ffea_a3c3` has index `0b000100000`, shift 39 |
| PageTableIndexTests.X86_64Level3 | src/page_table_index.rs:231-246 | x86_64 level 3 has index `0b000011111`, shift 30 |
| PageTableIndexTests.X86_64Level2 | src/page_table_index.rs:248-263 | x86_64 level 2 has index `0b111111111`, shift 21 |
| PageTableIndexTests.X86_64Level1 | src/page_table_index.rs:265-280 | x86_64 level 1 has index `0b010101010`, shift 12 |
| PagingInfo.FromArch | src/paging_info.rs:56-67 | The selection is total. Each (family, flag) pair gives its descriptor with the exact constants of `impls` (levels, width, offset bits, index bits, entry size). The width is 64 bits exactly for x86_64, and every descriptor is well-formed |
| PagingInfo.FromArchInjective | src/paging_info.rs:56-67 | Different architectures select different descriptors |
| PagingInfo.WellFormedNeverPanics | src/paging_info.rs:79-87 | For a well-formed descriptor the calculator computes at every level `1 ..= levels`, with the level's shift |
| PagingInfo.LevelShiftBelowWidth | src/paging_info.rs:79-87 | Every level's shift is at most the top level's, so it lies below the address width |
| PagingInfo.WellFormedAllLevels | src/paging_info.rs:79-89 | For a well-formed descriptor all levels compute |
| PagingInfo.CalcPageTableLookupMetaInfo | src/paging_info.rs:73-91 | The driver succeeds exactly when every level computes. It then returns `levels` results: result `i` is the calculator's result for level `i + 1` with the same address. Otherwise it ends with the panic of the first failing level. A well-formed descriptor never panics |
| PagingInfo.TableFillsPage | src/paging_info.rs:98-156 | In every catalog descriptor `entry_size * 2^index_bits == 2^page_offset_bits`: a table with all `2^index_bits` entries would fill exactly one page. The PAE third-level table has only 4 usable entries (32 bytes), see `PagingInfo.PaeThirdLevelHasFourEntries` |
| PagingInfo.IndexBelowUsableBits | src/page_table_index.rs:78-92 | At every level of a well-formed descriptor the index fits the level's usable bits: `index_bits`, or `width - shift` when the field reaches past the address width |
| PagingInfo.PaeThirdLevelHasFourEntries | src/paging_info.rs:112-128 | In x86 with PAE the third level's field reaches past bit 32. Only two usable bits remain, so its index is below 4 for every address |
| PagingInfoTests.X86Trace | src/paging_info.rs:163-174 | The x86 driver yields two results, level 1 then level 2, with indices `0b1010101010` and `0b1111111111` |
| PagingInfoTests.X86PaeTrace | src/paging_info.rs:176-188 | The PAE driver yields three results with indices `0b010101010`, `0b111111111`, `0b10` |
| PagingInfoTests.X86_64Trace | src/paging_info.rs:190-203 | The x86_64 driver yields four results with indices `0b010101010`, `0b111111111`, `0b000011111`, `0b000100000` |
| PagingInfoTests.X86_64FiveLevelTrace | src/paging_info.rs:205-219 | The five-level driver yields five results, the fifth with index `0b011101110` |
| PagingInfoTests.X86_64FiveLevel5 | src/paging_info.rs:205-219 | Level 5 of `0xee_1007_ffea_a3c3` has index `0b011101110`, shift 48 |
| PagingInfoTests.X86_64FiveLevel4 | src/paging_info.rs:205-219 | Level 4 has index `0b000100000`, shift 39 |
| PagingInfoTests.X86_64FiveLevel3 | src/paging_info.rs:205-219 | Level 3 has index `0b000011111`, shift 30 |
| PagingInfoTests.X86_64FiveLevel2 | src/paging_info.rs:205-219 | Level 2 has index `0b111111111`, shift 21 |
| PagingInfoTests.X86_64FiveLevel1 | src/paging_info.rs:205-219 | Level 1 has index `0b010101010`, shift 12 |
| Legacy.OldCalculatePageTableIndex | src/main.rs:79-99 | The old calculator panics on level 0 and otherwise only on shift or mask overflow. It uses the same shift formula |
| Legacy.OldMatchesNewOn64Bits | src/main.rs:79-99 | For positive widths the old calculator behaves as the new one with `Bits64`: the same panics, and the same index, relevant part and shift |
| Legacy.OldAcceptsZeroWidths | src/main.rs:83-89 | The old calculator accepts zero index bits and zero offset bits, which the new one rejects |
| Legacy.OldX86Vectors | src/main.rs:316-344 | The old x86 test: level 2 gives `0b1111111111 << 22`, level 1 gives `0b1010101010 << 12` |
| Legacy.OldX86_64Vectors | src/main.rs:346-397 | The old x86_64 test: the four indices and their fields at shifts 39, 30, 21, 12 |
| Cli.U64RoundTrip | src/cli.rs:61-71 | `u64 -> VirtualAddress -> u64` and `VirtualAddress -> u64 -> VirtualAddress` are identities |
| Cli.ToU32 | src/cli.rs:73-77 | The `u32` conversion keeps exactly the low 32 bits |
| Cli.TrimStart | src/cli.rs:84 | Removes exactly the leading run of whitespace: the result is a suffix, the removed part is all whitespace and the result does not start with whitespace |
| Cli.TrimEnd | src/cli.rs:84 | Removes exactly the trailing run of whitespace |
| Cli.FromStrRadix16 | src/cli.rs:93-98 | The digit reader fails on an empty text, a lone sign, a non-hex character (after one optional `+`) and on 2^64 or more. Otherwise it returns the hexadecimal value |
| Cli.FromStr | src/cli.rs:82-99 | `MissingPrefix` exactly when the normalised text lacks `0x`. `ParseIntError` exactly when the prefix is present and the rest does not read as a `u64`. Otherwise the address is the value read |
| Cli.ToString | src/cli.rs:37-41 | The display text is 18 characters: `0x` followed by 16 hexadecimal digits |
| Cli.HexDigitsValue | src/cli.rs:39 | The `n` zero-padded hexadecimal digits of `v` spell `v mod 16^n` |
| Cli.HexDigitsParse | src/cli.rs:39 | The 16 displayed digits of a `u64` read back as that `u64` |
| Cli.DisplayIsClean | src/cli.rs:39 | The display text is already in normal form: nothing to trim, lowercase or drop |
| Cli.DisplayParseRoundTrip | src/cli.rs:37-99 | Parsing the display text of any address gives that address back |
| Cli.ParseAfterPrefix | src/cli.rs:86-94 | A text whose normal form is `0x` plus `rest` parses to what the digit reader makes of `rest` |
| Cli.ParseSeesOnlyNormalForm | src/cli.rs:84 | Texts with the same normal form parse alike |
| Cli.ParseIgnoresSurroundingWhitespace | src/cli.rs:84 | Whitespace added before or after a text does not change what it parses to |
| Cli.ParseIgnoresCase | src/cli.rs:84-88 | Texts equal up to letter case parse alike; lowercasing precedes the prefix check, so `0X` is accepted |
| Cli.NormalizeIgnoresInnerUnderscore | src/cli.rs:84 | An underscore between two parts that do not start or end in whitespace disappears from the normal form |
| Cli.ParseIgnoresInnerUnderscore | src/cli.rs:84 | Such an underscore does not change what the text parses to |
| CliTests.ParsePlain | src/cli.rs:163 | `0x123` parses to 0x123 |
| CliTests.ParseDeadBeef | src/cli.rs:82-99 | `0xdeadbeef` parses to 0xdeadbeef |
| CliTests.ParseWithUnderscore | src/cli.rs:164-167 | `0xdead_beef` parses to 0xdeadbeef |
| CliTests.ParseMixedCase | src/cli.rs:84-98 | `0xdEAd_bEEF` parses to 0xdeadbeef |
| CliTests.ParseSurroundedMixedCase | src/cli.rs:168-171 | `    0xdEAd_bEEF    ` parses to 0xdeadbeef |
| CliTests.ParseFullWidth | src/cli.rs:174-180 | `0xdead_beef_1337_1337` parses to the full 64-bit value, whose `u32` conversion is `0x1337_1337` |
| CliTests.ParseUppercasePrefix | src/cli.rs:84-88 | `0X1F` parses to 0x1f |
| CliTests.ParsePlusSign | src/cli.rs:93-94 | `0x+ff` parses to 0xff: the digit reader skips one `+` |
| CliTests.ParseNoDigits | src/cli.rs:91-98 | `0x` alone is a `ParseIntError` |
| CliTests.ParseMinusSign | src/cli.rs:93-98 | `0x-1` is a `ParseIntError` |
| CliTests.ParseTooLarge | src/cli.rs:93-98 | `0x10000000000000000` (2^64) is a `ParseIntError` |
| CliTests.ParseMissingPrefix | src/cli.rs:86-88 | `123` is a `MissingPrefix` error |
| CliTests.LeadingUnderscoreKeepsBlank | src/cli.rs:84-88 | Trimming runs before underscores are dropped: `_ 0x1` keeps its blank and is a `MissingPrefix` error, while ` 0x1` parses |
| CliTests.ParseLeadingBlank | src/cli.rs:84 | ` 0x1` parses to 1 |
| Print.RelevantBitsLayout | src/print.rs:104-118 | The row's counts exist exactly when `level >= 1`, the right fill does not overflow and is at most the width; otherwise `u64` arithmetic panics. Right fill is the level's shift, the three counts add up to the width, and the highlight is at most `index_bits` (with no left fill when it is cut) |
| Print.LayoutMatchesCalculator | src/print.rs:107-115 | For every level of a well-formed descriptor the right fill equals the calculator's shift and the highlight equals the level's usable index bits |
| Print.PaeThirdLevelLayout | src/print.rs:110-115 | PAE level 3's row has no left fill, 2 highlighted digits and 30 right zeroes |
| Print.RenderRelevantBits | src/print.rs:120-129 | The row exists exactly when its counts do, and is `0b` followed by binary digits |
| Print.BinaryDigitsValue | src/print.rs:124-126 | The binary digits of a number read back as that number |
| Print.PadBinaryFits | src/print.rs:123-127 | A number below `2^w` padded to `w` digits has exactly `w` digits and keeps its value |
| Print.PaddedRowValue | src/print.rs:120-129 | Left zeroes, the padded index and right zeroes have the summed length and spell the index times `2^right` |
| Print.RenderedRow | src/print.rs:104-129 | For every level of a well-formed descriptor the row has exactly `addr_width` digits after `0b`, and they spell `index * 2^shift` |
| Print.RenderedRowIsRelevantPart | src/print.rs:102-129 | For every level of a well-formed descriptor, the digits of the row spell the calculator's relevant part of the address |
| Print.EntryOffset | src/print.rs:87-91 | The entry offset is `index * entry_size`, a panic when that overflows `u64` |
| Print.EntryWithinPage | src/print.rs:87-91 | In every catalog descriptor the selected entry lies inside one page: `offset + entry_size <= 2^page_offset_bits`, so the product never overflows |
| Print.PrintOrder | src/print.rs:69 | The report's order is the driver's sequence reversed |
| Print.ReportOrder | src/print.rs:62-77 | The report lists the levels of the selected descriptor from the top level down to level 1 |

## Left out

- Argument parsing with `clap`, the `main` entry point, `ColorOption` and Windows ANSI set-up (src/main.rs, src/cli.rs:102-131). These are framework glue with no arithmetic.
- The ANSI styling and the global `USE_ANSI` flag (src/print.rs:28, 132-160). This is terminal state only.
- All printed text: the header, labels, `{:x}`/`{:04x}` formatting and the legacy printing in src/main.rs. Only the counts, the bit row's digits, the entry offset and the level order are modelled.
- The `Architecture` enum of src/main.rs:101-107. It belongs to the older code path that only the legacy printing uses.
- The `name` and `description` strings of the descriptors. Only the numeric fields take part in any computation.
- `eprintln!` of the digit reader's error (src/cli.rs:96). This is output only.
- PageTableIndex.CalculatePageTableIndex: the mask comes from `Bitmasks.Bitmask` (the closed form of `num_to_bitmask`), because `create_mask` is not part of this model. A mask wider than 64 bits is taken to panic, as `num_to_bitmask` does.
- PageTableIndex.CalculatePageTableIndex: overflow of `index_bits * (level - 1) + page_offset_bits` is a panic (debug builds). A release build would wrap instead; that is not modelled.
- Print.RelevantBitsLayout: the same holds for its `u64` arithmetic.
- Cli.FromStrRadix16: collapses `ParseIntError`'s error kinds (empty, invalid digit, overflow) into one failure, since `from_str` maps them all to one error.
- Cli.FromStr: lowercasing covers only the ASCII letters `A`-`Z`. Rust's `to_lowercase` also maps other Unicode capitals, which cannot lead to a valid address anyway. Trimming uses Rust's full list of whitespace characters.
