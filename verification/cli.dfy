/**
 The command-line facing values: the virtual address (its conversions, its
 display text and its parser) and the architecture selector.
 */
module Cli {
  import opened Bits
  import opened Results

  /** A 64-bit virtual address. */
  datatype VirtualAddress = VirtualAddress(value: u64)

  /** Why a text is not a virtual address. */
  datatype VirtualAddressError = MissingPrefix | ParseIntError

  /** The architecture sub-command with its feature flag. */
  datatype Architecture = X86(pae: bool) | X86_64(fiveLevel: bool)

  const PREFIX: string := "0x"

  // ---------------------------------------------------------------------
  // Conversions
  // ---------------------------------------------------------------------

  function FromU64(v: u64): VirtualAddress
  {
    VirtualAddress(v)
  }

  function ToU64(a: VirtualAddress): u64
  {
    a.value
  }

  /** `u64 -> VirtualAddress -> u64` and back lose nothing. */
  lemma U64RoundTrip(v: u64, a: VirtualAddress)
    ensures ToU64(FromU64(v)) == v
    ensures FromU64(ToU64(a)) == a
  {
  }

  /** The conversion into `u32` keeps exactly the low 32 bits. */
  function ToU32(a: VirtualAddress): (r: u32)
    ensures r == a.value % U32_MODULUS
  {
    Pow2Constants();
    AndLowOnes(a.value, 32);
    And(a.value, 0xFFFF_FFFF)
  }

  // ---------------------------------------------------------------------
  // Normalisation of the user's text: trim, lowercase, drop underscores
  // ---------------------------------------------------------------------

  /** Rust's `char::is_whitespace`: the Unicode White_Space property. */
  predicate IsWhitespace(c: char)
  {
    var n := c as int;
    || 0x09 <= n <= 0x0D
    || n == 0x20
    || n == 0x85
    || n == 0xA0
    || n == 0x1680
    || 0x2000 <= n <= 0x200A
    || n == 0x2028
    || n == 0x2029
    || n == 0x202F
    || n == 0x205F
    || n == 0x3000
  }

  predicate AllWhitespace(s: string)
  {
    forall i :: 0 <= i < |s| ==> IsWhitespace(s[i])
  }

  function TrimStart(s: string): (t: string)
    ensures |t| <= |s| && t == s[|s| - |t|..]
    ensures AllWhitespace(s[..|s| - |t|])
    ensures |t| > 0 ==> !IsWhitespace(t[0])
  {
    if |s| > 0 && IsWhitespace(s[0]) then TrimStart(s[1..]) else s
  }

  function TrimEnd(s: string): (t: string)
    ensures |t| <= |s| && t == s[..|t|]
    ensures AllWhitespace(s[|t|..])
    ensures |t| > 0 ==> !IsWhitespace(t[|t| - 1])
  {
    if |s| > 0 && IsWhitespace(s[|s| - 1]) then TrimEnd(s[..|s| - 1]) else s
  }

  /** `str::trim`: leading and trailing whitespace removed. */
  function Trim(s: string): string
  {
    TrimEnd(TrimStart(s))
  }

  /** Lowercasing of one character; only ASCII letters are modelled. */
  function LowerChar(c: char): (l: char)
    ensures IsWhitespace(l) <==> IsWhitespace(c)
    ensures !('A' <= l <= 'Z')
    ensures l != c ==> 'A' <= c <= 'Z'
  {
    if 'A' <= c <= 'Z' then (c as int + 32) as char else c
  }

  function Lowercase(s: string): (t: string)
    ensures |t| == |s|
    ensures forall i :: 0 <= i < |s| ==> t[i] == LowerChar(s[i])
  {
    seq(|s|, i requires 0 <= i < |s| => LowerChar(s[i]))
  }

  /** `replace('_', "")`: the text with every underscore deleted. */
  function RemoveUnderscores(s: string): (t: string)
    ensures forall i :: 0 <= i < |t| ==> t[i] != '_'
    ensures |t| <= |s|
  {
    if |s| == 0 then []
    else (if s[0] == '_' then [] else [s[0]]) + RemoveUnderscores(s[1..])
  }

  /** The text the parser actually inspects. */
  function Normalize(s: string): string
  {
    RemoveUnderscores(Lowercase(Trim(s)))
  }

  // ---------------------------------------------------------------------
  // Hexadecimal digits and `u64::from_str_radix(_, 16)`
  // ---------------------------------------------------------------------

  /** `char::to_digit(16)` succeeds. */
  predicate IsHexDigit(c: char)
  {
    '0' <= c <= '9' || 'a' <= c <= 'f' || 'A' <= c <= 'F'
  }

  predicate AllHexDigits(s: string)
  {
    forall i :: 0 <= i < |s| ==> IsHexDigit(s[i])
  }

  function HexDigitValue(c: char): (d: nat)
    requires IsHexDigit(c)
    ensures d < 16
  {
    if '0' <= c <= '9' then c as int - '0' as int
    else if 'a' <= c <= 'f' then c as int - 'a' as int + 10
    else c as int - 'A' as int + 10
  }

  /** The value of a string of hexadecimal digits, most significant first. */
  function HexValue(digits: string): nat
    requires AllHexDigits(digits)
  {
    if |digits| == 0 then 0
    else 16 * HexValue(digits[..|digits| - 1]) + HexDigitValue(digits[|digits| - 1])
  }

  /**
   The digits `u64::from_str_radix` reads: one leading `+` is skipped, a
   leading `-` is not (it is then an invalid digit of an unsigned number).
   */
  function DigitsAfterSign(src: string): string
  {
    if |src| > 0 && src[0] == '+' then src[1..] else src
  }

  /**
   `u64::from_str_radix(src, 16)`. It fails on an empty text, on a lone sign,
   on any character that is not a hexadecimal digit, and on a value of 2^64
   or more; the kind of failure is not modelled.
   */
  function FromStrRadix16(src: string): (r: Result<u64, ()>)
    ensures |src| == 0 ==> r.Failure?
    ensures src == "+" || src == "-" ==> r.Failure?
    ensures !AllHexDigits(DigitsAfterSign(src)) ==> r.Failure?
    ensures r.Success? ==> AllHexDigits(DigitsAfterSign(src)) && r.value == HexValue(DigitsAfterSign(src))
    ensures AllHexDigits(DigitsAfterSign(src)) && |DigitsAfterSign(src)| > 0 ==>
              (r.Success? <==> HexValue(DigitsAfterSign(src)) < U64_MODULUS)
  {
    if |src| == 0 then Failure(())
    else if (src[0] == '+' || src[0] == '-') && |src| == 1 then Failure(())
    else
      var digits := DigitsAfterSign(src);
      if !AllHexDigits(digits) then Failure(())
      else if HexValue(digits) >= U64_MODULUS then Failure(())
      else Success(HexValue(digits))
  }

  predicate HasPrefix(s: string)
  {
    |s| >= |PREFIX| && s[..|PREFIX|] == PREFIX
  }

  /**
   `VirtualAddress::from_str`: normalise, demand the `0x` prefix, then read
   the rest as a hexadecimal `u64`.
   */
  function FromStr(s: string): (r: Result<VirtualAddress, VirtualAddressError>)
    ensures r == Failure(MissingPrefix) <==> !HasPrefix(Normalize(s))
    ensures r == Failure(ParseIntError) <==>
              HasPrefix(Normalize(s)) && FromStrRadix16(Normalize(s)[|PREFIX|..]).Failure?
    ensures r.Success? ==> r.value.value == FromStrRadix16(Normalize(s)[|PREFIX|..]).value
  {
    var t := Normalize(s);
    if !HasPrefix(t) then Failure(MissingPrefix)
    else
      match FromStrRadix16(t[|PREFIX|..])
      case Success(v) => Success(VirtualAddress(v))
      case Failure(_) => Failure(ParseIntError)
  }

  // ---------------------------------------------------------------------
  // Display: "0x" followed by 16 zero-padded lowercase hexadecimal digits
  // ---------------------------------------------------------------------

  function HexChar(d: nat): (c: char)
    requires d < 16
    ensures IsHexDigit(c) && HexDigitValue(c) == d
    ensures !('A' <= c <= 'Z') && c != '_' && !IsWhitespace(c) && c != '+'
  {
    "0123456789abcdef"[d]
  }

  /** The lowest `n` hexadecimal digits of `v`, most significant first. */
  function HexDigits(v: nat, n: nat): (t: string)
    ensures |t| == n
    ensures forall i :: 0 <= i < n ==> IsHexDigit(t[i]) && !('A' <= t[i] <= 'Z')
    ensures forall i :: 0 <= i < n ==> t[i] != '_' && !IsWhitespace(t[i]) && t[i] != '+'
  {
    if n == 0 then [] else HexDigits(v / 16, n - 1) + [HexChar(v % 16)]
  }

  /** `format!("0x{:016x}", v)`. */
  function ToString(a: VirtualAddress): (s: string)
    ensures |s| == 18 && HasPrefix(s)
    ensures AllHexDigits(s[2..])
  {
    PREFIX + HexDigits(a.value, 16)
  }

  // ---------------------------------------------------------------------
  // Lemmas
  // ---------------------------------------------------------------------

  /** The digits of `HexDigits(v, n)` spell `v` modulo `16^n`. */
  lemma {:induction false} HexDigitsValue(v: nat, n: nat)
    ensures HexValue(HexDigits(v, n)) == v % Pow2(4 * n)
  {
    if n > 0 {
      var t := HexDigits(v, n);
      var p := Pow2(4 * (n - 1));
      assert t[..n - 1] == HexDigits(v / 16, n - 1);
      assert HexValue(t) == 16 * HexValue(t[..n - 1]) + HexDigitValue(t[n - 1]);
      assert HexDigitValue(t[n - 1]) == v % 16;
      assert HexValue(t[..n - 1]) == (v / 16) % p by {
        HexDigitsValue(v / 16, n - 1);
      }
      Pow2NextNibble(n);
      SplitDivisor(v, 16, p);
    }
  }

  /** One more hexadecimal digit multiplies the range by sixteen. */
  lemma Pow2NextNibble(n: nat)
    requires n > 0
    ensures Pow2(4 * n) == 16 * Pow2(4 * (n - 1))
  {
    var m := 4 * (n - 1);
    assert 4 * n == 4 + m;
    Pow2Four();
    Pow2Add(4, m);
  }

  lemma {:induction false} TrimStartOfClean(s: string)
    requires |s| > 0 ==> !IsWhitespace(s[0])
    ensures TrimStart(s) == s
  {
  }

  lemma {:induction false} TrimEndOfClean(s: string)
    requires |s| > 0 ==> !IsWhitespace(s[|s| - 1])
    ensures TrimEnd(s) == s
  {
  }

  lemma {:induction false} RemoveUnderscoresOfClean(s: string)
    requires forall i :: 0 <= i < |s| ==> s[i] != '_'
    ensures RemoveUnderscores(s) == s
  {
    if |s| > 0 {
      RemoveUnderscoresOfClean(s[1..]);
    }
  }

  /** A text without surrounding whitespace, capitals or underscores is already normal. */
  lemma NormalizeOfClean(s: string)
    requires |s| > 0 ==> !IsWhitespace(s[0]) && !IsWhitespace(s[|s| - 1])
    requires forall i :: 0 <= i < |s| ==> !('A' <= s[i] <= 'Z') && s[i] != '_'
    ensures Normalize(s) == s
  {
    TrimStartOfClean(s);
    TrimEndOfClean(s);
    assert Lowercase(s) == s;
    RemoveUnderscoresOfClean(s);
  }

  /** Sixteen hexadecimal digits of a `u64` read back as that `u64`. */
  lemma HexDigitsParse(v: u64)
    ensures FromStrRadix16(HexDigits(v, 16)) == Success(v)
  {
    FullWidthDigitsParse(v, 16);
  }

  /** As many hexadecimal digits as a `u64` has nibbles read back as that `u64`. */
  lemma FullWidthDigitsParse(v: u64, n: nat)
    requires 4 * n == 64
    ensures FromStrRadix16(HexDigits(v, n)) == Success(v)
  {
    var digits := HexDigits(v, n);
    var p := Pow2(4 * n);
    assert p == U64_MODULUS by { Pow2Constants(); }
    assert HexValue(digits) == v by {
      HexDigitsValue(v, n);
      ModOfSmaller(v, p);
    }
    ParseUnsigned(digits, v);
  }

  /** Unsigned hexadecimal digits whose value fits in a `u64` parse to that value. */
  lemma ParseUnsigned(digits: string, v: u64)
    requires |digits| > 0 && digits[0] != '+' && AllHexDigits(digits) && HexValue(digits) == v
    ensures FromStrRadix16(digits) == Success(v)
  {
    assert DigitsAfterSign(digits) == digits;
  }

  /** Parsing the displayed text of an address gives the address back. */
  lemma DisplayParseRoundTrip(a: VirtualAddress)
    ensures FromStr(ToString(a)) == Success(a)
  {
    var s := ToString(a);
    var digits := HexDigits(a.value, 16);
    assert FromStrRadix16(digits) == Success(a.value) by {
      HexDigitsParse(a.value);
    }
    assert Normalize(s) == PREFIX + digits by {
      DisplayIsClean(a);
    }
    ParseAfterPrefix(s, digits, a.value);
  }

  /** The displayed text has no blank ends, capitals or underscores to normalise away. */
  lemma DisplayIsClean(a: VirtualAddress)
    ensures Normalize(ToString(a)) == PREFIX + HexDigits(a.value, 16)
  {
    var digits := HexDigits(a.value, 16);
    var s := ToString(a);
    forall i | 0 <= i < |s|
      ensures !('A' <= s[i] <= 'Z') && s[i] != '_'
    {
      if i >= |PREFIX| {
        assert s[i] == digits[i - |PREFIX|];
      }
    }
    assert !IsWhitespace(s[|s| - 1]) by {
      assert s[|s| - 1] == digits[15];
    }
    NormalizeOfClean(s);
  }

  /** A text whose normal form is the prefix and `rest` parses as `rest` does. */
  lemma ParseAfterPrefix(s: string, rest: string, v: u64)
    requires Normalize(s) == PREFIX + rest
    requires FromStrRadix16(rest) == Success(v)
    ensures FromStr(s) == Success(VirtualAddress(v))
  {
    assert (PREFIX + rest)[..|PREFIX|] == PREFIX;
    assert (PREFIX + rest)[|PREFIX|..] == rest;
  }

  // ---------------------------------------------------------------------
  // What normalisation makes irrelevant
  // ---------------------------------------------------------------------

  /** The parser looks at its input only through the normalised text. */
  lemma ParseSeesOnlyNormalForm(s1: string, s2: string)
    requires Normalize(s1) == Normalize(s2)
    ensures FromStr(s1) == FromStr(s2)
  {
  }

  lemma {:induction false} TrimStartSkipsWhitespace(pre: string, x: string)
    requires AllWhitespace(pre)
    ensures TrimStart(pre + x) == TrimStart(x)
  {
    if |pre| > 0 {
      assert (pre + x)[1..] == pre[1..] + x;
      TrimStartSkipsWhitespace(pre[1..], x);
    } else {
      assert pre + x == x;
    }
  }

  lemma {:induction false} TrimEndSkipsWhitespace(x: string, post: string)
    requires AllWhitespace(post)
    ensures TrimEnd(x + post) == TrimEnd(x)
  {
    if |post| > 0 {
      assert (x + post)[..|x + post| - 1] == x + post[..|post| - 1];
      TrimEndSkipsWhitespace(x, post[..|post| - 1]);
    } else {
      assert x + post == x;
    }
  }

  /** Once a non-whitespace character is reached, whatever follows is kept. */
  lemma {:induction false} TrimStartKeepsTail(s: string, post: string)
    requires |TrimStart(s)| > 0
    ensures TrimStart(s + post) == TrimStart(s) + post
  {
    if IsWhitespace(s[0]) {
      assert (s + post)[1..] == s[1..] + post;
      TrimStartKeepsTail(s[1..], post);
    }
  }

  /** Whitespace around the text does not change what it parses to. */
  lemma ParseIgnoresSurroundingWhitespace(pre: string, s: string, post: string)
    requires AllWhitespace(pre) && AllWhitespace(post)
    ensures FromStr(pre + s + post) == FromStr(s)
  {
    assert Trim(pre + s + post) == Trim(s) by {
      assert pre + s + post == pre + (s + post);
      TrimStartSkipsWhitespace(pre, s + post);
      if |TrimStart(s)| > 0 {
        TrimStartKeepsTail(s, post);
        TrimEndSkipsWhitespace(TrimStart(s), post);
      } else {
        assert s[..|s| - |TrimStart(s)|] == s;
        forall i | 0 <= i < |s + post|
          ensures IsWhitespace((s + post)[i])
        {
          if i < |s| {
            assert (s + post)[i] == s[i];
          } else {
            assert (s + post)[i] == post[i - |s|];
          }
        }
        assert TrimStart(s + post) == [];
      }
    }
    ParseSeesOnlyNormalForm(pre + s + post, s);
  }

  lemma {:induction false} TrimStartOfLowercase(s: string)
    ensures TrimStart(Lowercase(s)) == Lowercase(TrimStart(s))
  {
    if |s| > 0 && IsWhitespace(s[0]) {
      assert Lowercase(s)[1..] == Lowercase(s[1..]);
      TrimStartOfLowercase(s[1..]);
    }
  }

  lemma {:induction false} TrimEndOfLowercase(s: string)
    ensures TrimEnd(Lowercase(s)) == Lowercase(TrimEnd(s))
  {
    if |s| > 0 && IsWhitespace(s[|s| - 1]) {
      assert Lowercase(s)[..|s| - 1] == Lowercase(s[..|s| - 1]);
      TrimEndOfLowercase(s[..|s| - 1]);
    }
  }

  /** Texts that agree up to letter case parse alike; in particular `0X` is a valid prefix. */
  lemma ParseIgnoresCase(s1: string, s2: string)
    requires Lowercase(s1) == Lowercase(s2)
    ensures FromStr(s1) == FromStr(s2)
  {
    assert Normalize(s1) == Normalize(s2) by {
      TrimStartOfLowercase(s1);
      TrimEndOfLowercase(TrimStart(s1));
      TrimStartOfLowercase(s2);
      TrimEndOfLowercase(TrimStart(s2));
    }
    ParseSeesOnlyNormalForm(s1, s2);
  }

  lemma LowercaseConcat(a: string, b: string)
    ensures Lowercase(a + b) == Lowercase(a) + Lowercase(b)
  {
  }

  lemma LowercaseAroundUnderscore(p: string, q: string)
    ensures Lowercase(p + "_" + q) == Lowercase(p) + "_" + Lowercase(q)
  {
    var a, b := p + "_" + q, Lowercase(p) + "_" + Lowercase(q);
    forall i | 0 <= i < |a|
      ensures Lowercase(a)[i] == b[i]
    {
      if i < |p| {
        assert a[i] == p[i];
      } else if i == |p| {
        assert a[i] == '_' == b[i];
      } else {
        assert a[i] == q[i - |p| - 1];
      }
    }
  }

  lemma {:induction false} RemoveUnderscoresConcat(a: string, b: string)
    ensures RemoveUnderscores(a + b) == RemoveUnderscores(a) + RemoveUnderscores(b)
  {
    if |a| > 0 {
      assert (a + b)[1..] == a[1..] + b;
      RemoveUnderscoresConcat(a[1..], b);
    } else {
      assert a + b == b;
    }
  }

  /** Normalising `p _ q` and `p q` gives the same text when neither starts or ends with whitespace. */
  lemma NormalizeIgnoresInnerUnderscore(p: string, q: string)
    requires |p| > 0 && !IsWhitespace(p[0])
    requires |q| > 0 && !IsWhitespace(q[|q| - 1])
    ensures Normalize(p + "_" + q) == Normalize(p + q)
  {
    var withUnderscore, without := p + "_" + q, p + q;
    var lp, lq := Lowercase(p), Lowercase(q);
    calc {
      Normalize(withUnderscore);
    == { TrimStartOfClean(withUnderscore); TrimEndOfClean(withUnderscore); }
      RemoveUnderscores(Lowercase(withUnderscore));
    == { LowercaseAroundUnderscore(p, q); }
      RemoveUnderscores(lp + "_" + lq);
    == { RemoveUnderscoresConcat(lp + "_", lq); }
      RemoveUnderscores(lp + "_") + RemoveUnderscores(lq);
    == { RemoveUnderscoresConcat(lp, "_"); assert RemoveUnderscores("_") == []; }
      RemoveUnderscores(lp) + RemoveUnderscores(lq);
    == { RemoveUnderscoresConcat(lp, lq); }
      RemoveUnderscores(lp + lq);
    == { LowercaseConcat(p, q); }
      RemoveUnderscores(Lowercase(without));
    == { TrimStartOfClean(without); TrimEndOfClean(without); }
      Normalize(without);
    }
  }

  /**
   An underscore between two parts of the text is ignored, provided the text
   does not start or end with whitespace (trimming happens before the
   underscores are removed).
   */
  lemma ParseIgnoresInnerUnderscore(p: string, q: string)
    requires |p| > 0 && !IsWhitespace(p[0])
    requires |q| > 0 && !IsWhitespace(q[|q| - 1])
    ensures FromStr(p + "_" + q) == FromStr(p + q)
  {
    NormalizeIgnoresInnerUnderscore(p, q);
    ParseSeesOnlyNormalForm(p + "_" + q, p + q);
  }
}
