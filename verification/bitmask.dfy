/**
 The low-bits mask used by the index calculator: `n` ones filled in from the
 right, for `n` in `0 ..= 64`, built one bit at a time so that 64 ones need
 no shift by the full width.
 */
module Bitmasks {
  import opened Bits
  import opened Results

  /**
   The mask after `n` rounds of the loop: shift left by one, then set bit 0.
   It has exactly `n` ones, so `Bitmask(64)` is all ones.
   */
  function Bitmask(n: nat): (m: u64)
    requires n <= 64
    ensures m == Pow2(n) - 1
  {
    if n == 0 then 0
    else
      var shifted := Shl(Bitmask(n - 1), 1);
      ShiftInOneBit(n - 1);
      Or(shifted, 1)
  }

  /** One round of the loop turns `k` ones into `k + 1` ones. */
  lemma ShiftInOneBit(k: nat)
    requires k < 64
    ensures Pow2(k + 1) <= U64_MODULUS
    ensures Shl(Pow2(k) - 1, 1) == 2 * (Pow2(k) - 1)
    ensures Or(Shl(Pow2(k) - 1, 1), 1) == Pow2(k + 1) - 1
  {
    assert Pow2(k + 1) <= U64_MODULUS by {
      Pow2Monotone(k + 1, 64);
      Pow2Constants();
    }
    var ones := Pow2(k) - 1;
    assert Pow2(1) == 2;
    assert 2 * ones < U64_MODULUS;
    ModOfSmaller(2 * ones, U64_MODULUS);
    OrOneOfEven(ones);
  }

  /**
   `num_to_bitmask`: panics unless `val <= 64`; otherwise loops `val` times,
   shifting the mask left and setting its lowest bit.
   */
  method NumToBitmask(val: u64) returns (r: Result<u64, Panic>)
    ensures val <= 64 ==> r == Success(Pow2(val) - 1)
    ensures val > 64 ==> r == Failure(MaskTooWide)
  {
    if !(val < 65) {
      return Failure(MaskTooWide);
    }
    var remaining: u64 := val;
    var bitmask: u64 := 0;
    while remaining > 0
      invariant remaining <= val
      invariant bitmask == Pow2(val - remaining) - 1
    {
      ShiftInOneBit(val - remaining);
      bitmask := Shl(bitmask, 1);
      bitmask := Or(bitmask, 1);
      remaining := remaining - 1;
    }
    assert bitmask == Pow2(val) - 1;
    return Success(bitmask);
  }

  /** The boundary cases and the values the source's test of `num_to_bitmask` lists. */
  method BitmaskVectors() returns (masks: seq<u64>)
    ensures masks == [0, 1, 3, 0xf, 0xFFFF_FFFF_FFFF_FFFF]
  {
    masks := [];
    var inputs: seq<u64> := [0, 1, 2, 4, 64];
    for i := 0 to |inputs|
      invariant |masks| == i
      invariant forall k :: 0 <= k < i ==> masks[k] == Pow2(inputs[k]) - 1
    {
      var r := NumToBitmask(inputs[i]);
      masks := masks + [r.value];
    }
    assert masks[0] == 0 && masks[1] == 1 && masks[2] == 3 by {
      assert Pow2(2) == 4;
    }
    assert masks[3] == 0xf by {
      assert Pow2(4) == 16;
    }
    assert masks[4] == 0xFFFF_FFFF_FFFF_FFFF by {
      Pow2Constants();
    }
  }
}
