/**
 The outcome of a computation that may abort. The Rust program aborts by
 panicking: an `assert!` that fails, an arithmetic overflow (the program's
 tests run with overflow checks on) or a shift by 64 or more. The model
 turns each panic into a `Failure` carrying its cause.
 */
module Results {

  datatype Result<+T, +E> = Success(value: T) | Failure(error: E)

  /** Why a computation panicked. */
  datatype Panic =
    | IndexBitsZero        // `assert!(index_bits > 0)`
    | PageOffsetBitsZero   // `assert!(page_offset_bits > 0)`
    | LevelZero            // `assert!(level > 0)`
    | ArithmeticOverflow   // a `u64` addition, subtraction or product left the range
    | ShiftOverflow        // a shift by 64 or more bits
    | MaskTooWide          // a bit mask of more than 64 ones was requested
}
