/** The width of a virtual address: 32 or 64 bits. */
module AddrWidths {
  import opened Bits

  datatype AddrWidth = Bits32 | Bits64

  /** The number of address bits, as the conversion into `u64` yields it. */
  function AsU64(w: AddrWidth): (n: u64)
    ensures n == 32 || n == 64
  {
    match w
    case Bits32 => 32
    case Bits64 => 64
  }

  /** Distinct widths convert to distinct numbers. */
  lemma AsU64Injective(a: AddrWidth, b: AddrWidth)
    requires AsU64(a) == AsU64(b)
    ensures a == b
  {
  }

  function DecimalDigit(d: nat): char
    requires d < 10
  {
    "0123456789"[d]
  }

  /** The decimal text of `n`, without leading zeros. */
  function Decimal(n: nat): string
  {
    if n < 10 then [DecimalDigit(n)] else Decimal(n / 10) + [DecimalDigit(n % 10)]
  }

  /** The display text of a width is its bit count followed by "-bits". */
  function ToString(w: AddrWidth): (s: string)
    ensures s == Decimal(AsU64(w)) + "-bits"
  {
    match w
    case Bits32 => "32-bits"
    case Bits64 => "64-bits"
  }
}
