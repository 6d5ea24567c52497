/**
 Unsigned 64-bit integers as Rust's `u64`, modelled on unbounded naturals.

 Right shift is division by a power of two, left shift multiplies and then
 drops every bit above bit 63 (Rust's `<<` on `u64` does not panic for a
 shift amount below 64, it silently discards the overflowing bits), and the
 bitwise operators are defined one bit at a time. The lemmas below give the
 bit-level meaning of each operator, so that the operations of the paging
 calculator can be reasoned about bit by bit.
 */
module Bits {

  const U64_MODULUS: nat := 0x1_0000_0000_0000_0000
  const U32_MODULUS: nat := 0x1_0000_0000

  /** Rust's `u64`. */
  type u64 = x: nat | x < 0x1_0000_0000_0000_0000

  /** Rust's `u32`. */
  type u32 = x: nat | x < 0x1_0000_0000

  function Pow2(n: nat): (p: nat)
    ensures p >= 1
  {
    if n == 0 then 1 else 2 * Pow2(n - 1)
  }

  /**
   Bit `j` of `x`, counting from the least significant bit 0. Only used on
   naturals; it accepts any integer so that a quotient can be passed without
   first proving it non-negative.
   */
  predicate BitSet(x: int, j: nat)
    decreases j
  {
    if j == 0 then x % 2 == 1 else BitSet(x / 2, j - 1)
  }

  /** Rust's `&` on unsigned integers. */
  function And(x: nat, y: nat): (r: nat)
    ensures r <= x && r <= y
  {
    if x == 0 || y == 0 then 0
    else 2 * And(x / 2, y / 2) + (if x % 2 == 1 && y % 2 == 1 then 1 else 0)
  }

  /** Rust's `|` on unsigned integers. */
  function Or(x: nat, y: nat): nat
  {
    if x == 0 then y
    else if y == 0 then x
    else 2 * Or(x / 2, y / 2) + (if x % 2 == 1 || y % 2 == 1 then 1 else 0)
  }

  /** Rust's `x >> s` on `u64`; Rust panics for `s >= 64`. */
  function Shr(x: u64, s: nat): u64
    requires s < 64
  {
    DivAtMost(x, Pow2(s));
    DivNonneg(x, Pow2(s));
    x / Pow2(s)
  }

  /** Rust's `x << s` on `u64`: bits shifted past bit 63 are lost. */
  function Shl(x: u64, s: nat): u64
    requires s < 64
  {
    (x * Pow2(s)) % U64_MODULUS
  }

  /** Bit `j` of `x >> s` is bit `j + s` of `x`. */
  lemma ShrBit(x: u64, s: nat, j: nat)
    requires s < 64
    ensures BitSet(Shr(x, s), j) <==> BitSet(x, j + s)
  {
    BitsOfDiv(x, s, j);
  }

  /** Bit `j` of `x << s` is bit `j - s` of `x` for `s <= j < 64`, and clear otherwise. */
  lemma ShlBit(x: u64, s: nat, j: nat)
    requires s < 64
    ensures BitSet(Shl(x, s), j) <==> j < 64 && s <= j && BitSet(x, j - s)
  {
    Pow2Constants();
    BitsOfMod(x * Pow2(s), 64, j);
    BitsOfMul(x, s, j);
  }

  lemma Pow2Constants()
    ensures Pow2(32) == U32_MODULUS
    ensures Pow2(64) == U64_MODULUS
  {
    assert Pow2(4) == 16;
    Pow2Double(4, 16);
    Pow2Double(8, 256);
    Pow2Double(16, 0x1_0000);
    Pow2Double(32, 0x1_0000_0000);
  }

  /** The powers of two the page-table layouts use: field widths, shifts and address widths. */
  lemma Pow2Table()
    ensures Pow2(8) == 0x100 && Pow2(9) == 0x200 && Pow2(10) == 0x400 && Pow2(12) == 0x1000
    ensures Pow2(16) == 0x1_0000 && Pow2(21) == 0x20_0000 && Pow2(22) == 0x40_0000
    ensures Pow2(30) == 0x4000_0000 && Pow2(32) == U32_MODULUS && Pow2(39) == 0x80_0000_0000
    ensures Pow2(48) == 0x1_0000_0000_0000 && Pow2(64) == U64_MODULUS
  {
    assert Pow2(1) == 2 && Pow2(2) == 4;
    Pow2Four();
    Pow2Add(4, 4);
    Pow2Add(8, 1);
    Pow2Add(8, 2);
    Pow2Add(8, 4);
    Pow2Add(8, 8);
    Pow2Add(12, 9);
    Pow2Add(12, 10);
    Pow2Add(21, 9);
    Pow2Add(16, 16);
    Pow2Add(30, 9);
    Pow2Add(32, 16);
    Pow2Add(32, 32);
  }

  /** A hexadecimal digit is four bits. */
  lemma Pow2Four()
    ensures Pow2(4) == 16
  {
  }

  lemma Pow2Double(n: nat, v: nat)
    requires Pow2(n) == v
    ensures Pow2(n + n) == v * v
  {
    Pow2Add(n, n);
  }

  lemma {:induction false} Pow2Add(a: nat, b: nat)
    ensures Pow2(a + b) == Pow2(a) * Pow2(b)
  {
    if a > 0 {
      Pow2Add(a - 1, b);
    }
  }

  lemma {:induction false} Pow2Monotone(a: nat, b: nat)
    requires a <= b
    ensures Pow2(a) <= Pow2(b)
  {
    if a < b {
      Pow2Monotone(a, b - 1);
    }
  }

  /** Division and remainder are determined by any decomposition `x == q*d + r`. */
  lemma DivModUnique(x: nat, d: nat, q: nat, r: nat)
    requires d > 0 && r < d && x == q * d + r
    ensures x / d == q && x % d == r
  {
    var q', r' := x / d, x % d;
    assert q' * d + r' == q * d + r;
    if q' < q {
      MulAtLeast(q - q', d);
    } else if q < q' {
      MulAtLeast(q' - q, d);
    }
  }

  lemma MulAtLeast(a: nat, d: nat)
    requires a >= 1
    ensures a * d >= d
  {
  }

  lemma MulDistributes(a: nat, b: nat, c: nat)
    ensures a * (b + c) == a * b + a * c
  {
  }

  lemma MulMonotone(a: nat, b: nat, c: nat)
    requires b <= c
    ensures a * b <= a * c
  {
    MulDistributes(a, b, c - b);
  }

  lemma ModOfSmaller(x: nat, m: nat)
    requires x < m
    ensures x % m == x
  {
  }

  lemma DivNonneg(x: nat, d: nat)
    requires d > 0
    ensures x / d >= 0
  {
    assert x == d * (x / d) + x % d;
  }

  lemma DivAtMost(x: nat, p: nat)
    requires p >= 1
    ensures x / p <= x
  {
    MulAtLeast(p, x / p);
    assert x == (x / p) * p + x % p;
  }

  /** Dividing by `d * p` is dividing by `d` and then by `p`. */
  lemma SplitDivisor(x: nat, d: nat, p: nat)
    requires d > 0 && p > 0
    ensures x / (d * p) == (x / d) / p
    ensures x % (d * p) == d * ((x / d) % p) + x % d
  {
    var a, m := x / d, x % d;
    var q, r := a / p, a % p;
    Recompose(x, d, p, a, m, q, r);
    DivModUnique(x, d * p, q, d * r + m);
  }

  /** `x = d*a + m` with `a = p*q + r` is `x = (d*p)*q + (d*r + m)`, whose remainder part stays below `d*p`. */
  lemma Recompose(x: nat, d: nat, p: nat, a: nat, m: nat, q: nat, r: nat)
    requires x == d * a + m && m < d && a == p * q + r && r < p
    ensures x == (d * p) * q + (d * r + m) && d * r + m < d * p
  {
    assert d * a == (d * p) * q + d * r by {
      MulDistributes(d, p * q, r);
      assert d * (p * q) == (d * p) * q;
    }
    MulAtLeast(p - r, d);
    assert (p - r) * d == d * p - d * r;
  }

  lemma HalveDivisor(x: nat, p: nat)
    requires p > 0
    ensures x / (2 * p) == (x / 2) / p
    ensures x % (2 * p) == 2 * ((x / 2) % p) + x % 2
  {
    SplitDivisor(x, 2, p);
  }

  lemma {:induction false} ZeroHasNoBits(j: nat)
    ensures !BitSet(0, j)
  {
    if j > 0 {
      ZeroHasNoBits(j - 1);
    }
  }

  /** Two naturals with the same bits are equal. */
  lemma {:induction false} BitsDetermine(x: nat, y: nat)
    requires forall j: nat :: BitSet(x, j) <==> BitSet(y, j)
    ensures x == y
    decreases x + y
  {
    if x != 0 || y != 0 {
      assert BitSet(x, 0) <==> BitSet(y, 0);
      forall j: nat
        ensures BitSet(x / 2, j) <==> BitSet(y / 2, j)
      {
        assert BitSet(x, j + 1) <==> BitSet(y, j + 1);
      }
      BitsDetermine(x / 2, y / 2);
    }
  }

  lemma {:induction false} BitsOfAnd(x: nat, y: nat, j: nat)
    ensures BitSet(And(x, y), j) <==> BitSet(x, j) && BitSet(y, j)
  {
    if x == 0 || y == 0 {
      ZeroHasNoBits(j);
    } else if j > 0 {
      BitsOfAnd(x / 2, y / 2, j - 1);
    }
  }

  lemma {:induction false} BitsOfOr(x: nat, y: nat, j: nat)
    ensures BitSet(Or(x, y), j) <==> BitSet(x, j) || BitSet(y, j)
  {
    if x == 0 || y == 0 {
      ZeroHasNoBits(j);
    } else if j > 0 {
      BitsOfOr(x / 2, y / 2, j - 1);
    }
  }

  lemma {:induction false} BitsOfDiv(x: nat, s: nat, j: nat)
    ensures BitSet(x / Pow2(s), j) <==> BitSet(x, j + s)
  {
    if s > 0 {
      HalveDivisor(x, Pow2(s - 1));
      BitsOfDiv(x / 2, s - 1, j);
    }
  }

  lemma {:induction false} BitsOfMod(x: nat, n: nat, j: nat)
    ensures BitSet(x % Pow2(n), j) <==> j < n && BitSet(x, j)
  {
    if n == 0 {
      ZeroHasNoBits(j);
    } else {
      var p := Pow2(n - 1);
      var m := x % Pow2(n);
      assert m == 2 * ((x / 2) % p) + x % 2 by {
        HalveDivisor(x, p);
      }
      if j > 0 {
        assert m / 2 == (x / 2) % p;
        BitsOfMod(x / 2, n - 1, j - 1);
      }
    }
  }

  lemma {:induction false} BitsOfMul(x: nat, s: nat, j: nat)
    ensures BitSet(x * Pow2(s), j) <==> s <= j && BitSet(x, j - s)
  {
    if s > 0 {
      assert x * Pow2(s) == 2 * (x * Pow2(s - 1));
      if j == 0 {
      } else {
        BitsOfMul(x, s - 1, j - 1);
      }
    }
  }

  /** `2^n - 1` has exactly the bits `0 .. n-1` set. */
  lemma {:induction false} BitsOfLowOnes(n: nat, j: nat)
    ensures BitSet(Pow2(n) - 1, j) <==> j < n
  {
    if n == 0 {
      ZeroHasNoBits(j);
    } else {
      assert Pow2(n) - 1 == 2 * (Pow2(n - 1) - 1) + 1;
      if j > 0 {
        BitsOfLowOnes(n - 1, j - 1);
      }
    }
  }

  /** A number below `2^n` has no bit at or above position `n`. */
  lemma HighBitsClear(x: nat, n: nat, j: nat)
    requires x < Pow2(n) && n <= j
    ensures !BitSet(x, j)
  {
    BitsOfMod(x, n, j);
  }

  /** Masking with `n` low ones keeps the value modulo `2^n`. */
  lemma AndLowOnes(x: nat, n: nat)
    ensures And(x, Pow2(n) - 1) == x % Pow2(n)
  {
    forall j: nat
      ensures BitSet(And(x, Pow2(n) - 1), j) <==> BitSet(x % Pow2(n), j)
    {
      BitsOfAnd(x, Pow2(n) - 1, j);
      BitsOfLowOnes(n, j);
      BitsOfMod(x, n, j);
    }
    BitsDetermine(And(x, Pow2(n) - 1), x % Pow2(n));
  }

  /** Setting bit 0 of an even number adds one. */
  lemma OrOneOfEven(k: nat)
    ensures Or(2 * k, 1) == 2 * k + 1
  {
    if k > 0 {
      assert (2 * k) / 2 == k && (2 * k) % 2 == 0;
      assert Or(k, 0) == k;
    }
  }
}
