/**
 The parser cases the source's unit tests check, and the edge cases of its
 normalisation. Each case is split into a small lemma that only describes the
 shape of its literal text and general lemmas about texts of that shape.
 */
module CliTests {
  import opened Bits
  import opened Results
  import opened Cli

  // ---------------------------------------------------------------------
  // Texts of a given shape
  // ---------------------------------------------------------------------

  /** A text already in normal form with the prefix and hexadecimal digits parses to their value. */
  lemma ParseNormal(s: string, digits: string)
    requires Normalize(s) == PREFIX + digits
    requires |digits| > 0 && AllHexDigits(digits) && HexValue(digits) < U64_MODULUS
    ensures FromStr(s) == Success(VirtualAddress(HexValue(digits)))
  {
    assert FromStrRadix16(digits) == Success(HexValue(digits)) by {
      assert DigitsAfterSign(digits) == digits;
    }
    ParseAfterPrefix(s, digits, HexValue(digits));
  }

  /** A plus sign between the prefix and the digits is skipped. */
  lemma ParseSignedNormal(s: string, signed: string, digits: string)
    requires Normalize(s) == PREFIX + signed
    requires |signed| > 0 && signed[0] == '+' && signed[1..] == digits
    requires |digits| > 0 && AllHexDigits(digits) && HexValue(digits) < U64_MODULUS
    ensures FromStr(s) == Success(VirtualAddress(HexValue(digits)))
  {
    assert FromStrRadix16(signed) == Success(HexValue(digits));
    ParseAfterPrefix(s, signed, HexValue(digits));
  }

  /** A minus sign after the prefix is not a digit of an unsigned number. */
  lemma ParseNegative(s: string, rest: string)
    requires Normalize(s) == PREFIX + rest
    requires |rest| > 0 && rest[0] == '-'
    ensures FromStr(s) == Failure(ParseIntError)
  {
    assert (PREFIX + rest)[..|PREFIX|] == PREFIX;
    assert (PREFIX + rest)[|PREFIX|..] == rest;
    assert !AllHexDigits(DigitsAfterSign(rest)) by {
      assert !IsHexDigit(rest[0]);
    }
  }

  /** Digits worth 2^64 or more do not fit into a `u64`. */
  lemma ParseOverflow(s: string, digits: string)
    requires Normalize(s) == PREFIX + digits
    requires |digits| > 0 && AllHexDigits(digits) && HexValue(digits) >= U64_MODULUS
    ensures FromStr(s) == Failure(ParseIntError)
  {
    assert (PREFIX + digits)[..|PREFIX|] == PREFIX;
    assert (PREFIX + digits)[|PREFIX|..] == digits;
    assert DigitsAfterSign(digits) == digits;
  }

  /** A text whose normal form is the bare prefix has no digits to read. */
  lemma NothingAfterPrefix(s: string)
    requires Normalize(s) == PREFIX
    ensures FromStr(s) == Failure(ParseIntError)
  {
    assert PREFIX[|PREFIX|..] == [];
  }

  /** A text that does not start with `0`, `x` lacks the prefix. */
  lemma NotPrefixed(t: string)
    requires |t| >= 2 ==> t[0] != '0' || t[1] != 'x'
    ensures !HasPrefix(t)
  {
    if |t| >= 2 {
      assert t[..2][0] == t[0] && t[..2][1] == t[1];
    }
  }

  // ---------------------------------------------------------------------
  // Values of digit strings
  // ---------------------------------------------------------------------

  lemma HexValueSnoc(d: string, c: char)
    requires AllHexDigits(d) && IsHexDigit(c)
    ensures AllHexDigits(d + [c])
    ensures HexValue(d + [c]) == 16 * HexValue(d) + HexDigitValue(c)
  {
    assert (d + [c])[..|d|] == d;
  }

  /** Four hexadecimal digits, most significant first. */
  lemma FourDigits(s: string)
    requires |s| == 4 && AllHexDigits(s)
    ensures HexValue(s) ==
              4096 * HexDigitValue(s[0]) + 256 * HexDigitValue(s[1]) + 16 * HexDigitValue(s[2]) + HexDigitValue(s[3])
  {
    assert s[..3][..2] == s[..2];
    assert s[..2][..1] == s[..1];
    assert s[..1][..0] == [];
    HexValueSnoc(s[..0], s[0]);
  }

  /** Appending digits shifts the value of the first part left by four bits per appended digit. */
  lemma {:induction false} HexValueConcat(a: string, b: string)
    requires AllHexDigits(a) && AllHexDigits(b)
    ensures AllHexDigits(a + b)
    ensures HexValue(a + b) == HexValue(a) * Pow2(4 * |b|) + HexValue(b)
  {
    if |b| > 0 {
      var b' := b[..|b| - 1];
      var c := b[|b| - 1];
      assert (a + b)[..|a + b| - 1] == a + b';
      assert (a + b)[|a + b| - 1] == c;
      HexValueConcat(a, b');
      assert Pow2(4 * |b|) == 16 * Pow2(4 * |b'|) by {
        Pow2NextNibble(|b|);
      }
      ShiftInDigit(HexValue(a), HexValue(b'), HexDigitValue(c), Pow2(4 * |b'|));
    } else {
      assert a + b == a;
    }
  }

  lemma ShiftInDigit(x: nat, y: nat, d: nat, p: nat)
    ensures 16 * (x * p + y) + d == x * (16 * p) + (16 * y + d)
  {
  }

  /** The value of two digit strings written one after the other. */
  lemma JoinDigits(d: string, hi: string, lo: string, vh: nat, vl: nat, p: nat)
    requires d == hi + lo
    requires AllHexDigits(hi) && HexValue(hi) == vh
    requires AllHexDigits(lo) && HexValue(lo) == vl
    requires Pow2(4 * |lo|) == p
    ensures AllHexDigits(d) && HexValue(d) == vh * p + vl
  {
    HexValueConcat(hi, lo);
  }

  /** A run of zeroes is worth nothing. */
  lemma {:induction false} ZeroesValue(z: string)
    requires forall i :: 0 <= i < |z| ==> z[i] == '0'
    ensures AllHexDigits(z) && HexValue(z) == 0
  {
    if |z| > 0 {
      ZeroesValue(z[..|z| - 1]);
    }
  }

  lemma OneDigit(d: string)
    requires d == "1"
    ensures |d| > 0 && AllHexDigits(d) && HexValue(d) == 1
  {
    HexValueSnoc("", '1');
    assert "" + ['1'] == d;
  }

  lemma OneFDigits(d: string)
    requires d == "1f"
    ensures |d| > 0 && AllHexDigits(d) && HexValue(d) == 0x1f
  {
    OneDigit("1");
    HexValueSnoc("1", 'f');
    assert "1" + ['f'] == d;
  }

  lemma TwoEfs(d: string)
    requires d == "ff"
    ensures |d| > 0 && AllHexDigits(d) && HexValue(d) == 0xff
  {
    HexValueSnoc("f", 'f');
    HexValueSnoc("", 'f');
    assert "" + ['f'] == "f" && "f" + ['f'] == d;
  }

  lemma PlainDigits(d: string)
    requires d == "123"
    ensures |d| > 0 && AllHexDigits(d) && HexValue(d) == 0x123
  {
    HexValueSnoc("12", '3');
    HexValueSnoc("1", '2');
    HexValueSnoc("", '1');
    assert "" + ['1'] == "1" && "1" + ['2'] == "12" && "12" + ['3'] == d;
  }

  lemma GroupDigits(g: string, v: nat)
    requires (g == "dead" && v == 0xdead) || (g == "beef" && v == 0xbeef) || (g == "1337" && v == 0x1337)
    ensures |g| == 4 && AllHexDigits(g) && HexValue(g) == v
  {
    FourDigits(g);
  }

  lemma DeadBeefSplit(d: string, hi: string, lo: string)
    requires d == "deadbeef" && hi == "dead" && lo == "beef"
    ensures d == hi + lo
  {
  }

  lemma DeadBeefDigits(d: string)
    requires d == "deadbeef"
    ensures |d| > 0 && AllHexDigits(d) && HexValue(d) == 0xdead_beef
  {
    var hi, lo := "dead", "beef";
    DeadBeefSplit(d, hi, lo);
    GroupDigits(hi, 0xdead);
    GroupDigits(lo, 0xbeef);
    Pow2Table();
    JoinDigits(d, hi, lo, 0xdead, 0xbeef, 0x1_0000);
  }

  lemma RepeatedSplit(d: string, g: string)
    requires d == "13371337" && g == "1337"
    ensures d == g + g
  {
  }

  lemma RepeatedDigits(d: string)
    requires d == "13371337"
    ensures |d| == 8 && AllHexDigits(d) && HexValue(d) == 0x1337_1337
  {
    var g := "1337";
    RepeatedSplit(d, g);
    GroupDigits(g, 0x1337);
    Pow2Table();
    JoinDigits(d, g, g, 0x1337, 0x1337, 0x1_0000);
  }

  lemma FullWidthSplit(d: string, hi: string, lo: string)
    requires d == "deadbeef13371337" && hi == "deadbeef" && lo == "13371337"
    ensures d == hi + lo
  {
  }

  lemma FullWidthDigits(d: string)
    requires d == "deadbeef13371337"
    ensures |d| > 0 && AllHexDigits(d) && HexValue(d) == 0xdead_beef_1337_1337
  {
    var hi, lo := "deadbeef", "13371337";
    FullWidthSplit(d, hi, lo);
    DeadBeefDigits(hi);
    RepeatedDigits(lo);
    assert Pow2(32) == U32_MODULUS by {
      Pow2Constants();
    }
    JoinDigits(d, hi, lo, 0xdead_beef, 0x1337_1337, U32_MODULUS);
  }

  lemma TooLargeSplit(d: string, one: string, zeroes: string)
    requires d == "10000000000000000" && one == "1" && zeroes == "0000000000000000"
    ensures d == one + zeroes && |zeroes| == 16
    ensures forall i :: 0 <= i < |zeroes| ==> zeroes[i] == '0'
  {
  }

  lemma TwoToTheSixtyFourDigits(d: string)
    requires d == "10000000000000000"
    ensures |d| > 0 && AllHexDigits(d) && HexValue(d) == U64_MODULUS
  {
    var one, zeroes := "1", "0000000000000000";
    TooLargeSplit(d, one, zeroes);
    OneDigit(one);
    ZeroesValue(zeroes);
    assert Pow2(4 * 16) == U64_MODULUS by {
      Pow2Constants();
    }
    JoinDigits(d, one, zeroes, 1, 0, U64_MODULUS);
  }

  // ---------------------------------------------------------------------
  // Normal forms of the literal texts
  // ---------------------------------------------------------------------

  /** Without surrounding whitespace or capitals, normalising only drops the underscores. */
  lemma NormalizeOfTidy(s: string)
    requires |s| > 0 ==> !IsWhitespace(s[0]) && !IsWhitespace(s[|s| - 1])
    requires Lowercase(s) == s
    ensures Normalize(s) == RemoveUnderscores(s)
  {
    TrimStartOfClean(s);
    TrimEndOfClean(s);
  }

  /** An underscore in front of a group without underscores disappears. */
  lemma DropSeparator(x: string, g: string)
    requires forall i :: 0 <= i < |g| ==> g[i] != '_'
    ensures RemoveUnderscores(x + "_" + g) == RemoveUnderscores(x) + g
  {
    assert x + "_" + g == x + ("_" + g);
    RemoveUnderscoresConcat(x, "_" + g);
    SeparatedGroup(g);
  }

  lemma SeparatedGroup(g: string)
    requires forall i :: 0 <= i < |g| ==> g[i] != '_'
    ensures RemoveUnderscores("_" + g) == g
  {
    RemoveUnderscoresConcat("_", g);
    RemoveUnderscoresOfClean(g);
  }

  /** Four groups joined by underscores lose exactly the underscores. */
  lemma DropSeparators(a: string, g1: string, g2: string, g3: string)
    requires forall i :: 0 <= i < |a| ==> a[i] != '_'
    requires forall i :: 0 <= i < |g1| ==> g1[i] != '_'
    requires forall i :: 0 <= i < |g2| ==> g2[i] != '_'
    requires forall i :: 0 <= i < |g3| ==> g3[i] != '_'
    ensures RemoveUnderscores(a + "_" + g1 + "_" + g2 + "_" + g3) == a + g1 + g2 + g3
  {
    RemoveUnderscoresOfClean(a);
    DropSeparator(a, g1);
    DropSeparator(a + "_" + g1, g2);
    DropSeparator(a + "_" + g1 + "_" + g2, g3);
  }

  lemma PlainShape(s: string, d: string)
    requires s == "0x123" && d == "123"
    ensures Normalize(s) == PREFIX + d
  {
    assert s == PREFIX + d;
    NormalizeOfClean(s);
  }

  lemma DeadBeefShape(s: string, d: string)
    requires s == "0xdeadbeef" && d == "deadbeef"
    ensures Normalize(s) == PREFIX + d
  {
    assert s == PREFIX + d;
    NormalizeOfClean(s);
  }

  lemma UnderscoreShape(s: string, p: string, q: string, t: string)
    requires s == "0xdead_beef" && p == "0xdead" && q == "beef" && t == "0xdeadbeef"
    ensures s == p + "_" + q && p + q == t
    ensures |p| > 0 && !IsWhitespace(p[0]) && |q| > 0 && !IsWhitespace(q[|q| - 1])
  {
  }

  lemma MixedCaseShape(s: string, t: string)
    requires s == "0xdEAd_bEEF" && t == "0xdead_beef"
    ensures Lowercase(s) == Lowercase(t)
  {
    var l := Lowercase(s);
    assert l[0] == '0' && l[1] == 'x' && l[2] == 'd' && l[3] == 'e' && l[4] == 'a' && l[5] == 'd';
    assert l[6] == '_' && l[7] == 'b' && l[8] == 'e' && l[9] == 'e' && l[10] == 'f';
    assert Lowercase(t) == t;
  }

  lemma SurroundedShape(s: string, blanks: string, core: string)
    requires s == "    0xdEAd_bEEF    " && blanks == "    " && core == "0xdEAd_bEEF"
    ensures s == blanks + core + blanks && AllWhitespace(blanks)
  {
  }

  lemma FullWidthTidy(s: string)
    requires s == "0xdead_beef_1337_1337"
    ensures Normalize(s) == RemoveUnderscores(s)
  {
    var l := Lowercase(s);
    forall i | 0 <= i < |s|
      ensures l[i] == s[i]
    {
      assert !('A' <= s[i] <= 'Z');
    }
    assert l == s;
    NormalizeOfTidy(s);
  }

  lemma FullWidthGroups(s: string, d: string, a: string, g1: string, g2: string)
    requires s == "0xdead_beef_1337_1337" && d == "deadbeef13371337"
    requires a == "0xdead" && g1 == "beef" && g2 == "1337"
    ensures s == a + "_" + g1 + "_" + g2 + "_" + g2
    ensures a + g1 + g2 + g2 == PREFIX + d
    ensures forall i :: 0 <= i < |a| ==> a[i] != '_'
    ensures forall i :: 0 <= i < |g1| ==> g1[i] != '_'
    ensures forall i :: 0 <= i < |g2| ==> g2[i] != '_'
  {
  }

  /** `0xdead_beef_1337_1337` normalises to the prefix and its sixteen digits. */
  lemma FullWidthShape(s: string, d: string)
    requires s == "0xdead_beef_1337_1337" && d == "deadbeef13371337"
    ensures Normalize(s) == PREFIX + d
  {
    var a, g1, g2 := "0xdead", "beef", "1337";
    FullWidthTidy(s);
    FullWidthGroups(s, d, a, g1, g2);
    DropSeparators(a, g1, g2, g2);
  }

  lemma UppercasePrefixShape(s: string, t: string)
    requires s == "0X1F" && t == "0x1f"
    ensures Lowercase(s) == Lowercase(t)
  {
    var l := Lowercase(s);
    assert l[0] == '0' && l[1] == 'x' && l[2] == '1' && l[3] == 'f';
    assert Lowercase(t) == t;
  }

  lemma OneFShape(t: string, d: string)
    requires t == "0x1f" && d == "1f"
    ensures Normalize(t) == PREFIX + d
  {
    assert t == PREFIX + d;
    NormalizeOfClean(t);
  }

  lemma PlusSignShape(s: string, signed: string, d: string)
    requires s == "0x+ff" && signed == "+ff" && d == "ff"
    ensures Normalize(s) == PREFIX + signed
    ensures |signed| > 0 && signed[0] == '+' && signed[1..] == d
  {
    assert s == PREFIX + signed;
    NormalizeOfClean(s);
  }

  lemma MinusSignShape(s: string, rest: string)
    requires s == "0x-1" && rest == "-1"
    ensures Normalize(s) == PREFIX + rest
    ensures |rest| > 0 && rest[0] == '-'
  {
    assert s == PREFIX + rest;
    NormalizeOfClean(s);
  }

  lemma TooLargeShape(s: string, d: string)
    requires s == "0x10000000000000000" && d == "10000000000000000"
    ensures Normalize(s) == PREFIX + d
  {
    assert s == PREFIX + d;
    NormalizeOfClean(s);
  }

  /**
   An underscore in front of a text that is otherwise already normal is the
   only thing normalisation removes: it shields blanks behind it from trimming.
   */
  lemma NormalizeAfterUnderscore(s: string, t: string)
    requires s == "_" + t
    requires |t| > 0 && !IsWhitespace(t[|t| - 1])
    requires forall i :: 0 <= i < |t| ==> !('A' <= t[i] <= 'Z') && t[i] != '_'
    ensures Normalize(s) == t
  {
    assert TrimStart(s) == s by {
      TrimStartOfClean(s);
    }
    assert TrimEnd(s) == s by {
      assert s[|s| - 1] == t[|t| - 1];
      TrimEndOfClean(s);
    }
    assert Lowercase(s) == s by {
      var l := Lowercase(s);
      forall i | 0 <= i < |s|
        ensures l[i] == s[i]
      {
        if i > 0 {
          assert s[i] == t[i - 1];
        }
      }
    }
    assert RemoveUnderscores(s) == t by {
      RemoveUnderscoresConcat("_", t);
      assert RemoveUnderscores("_") == [];
      RemoveUnderscoresOfClean(t);
    }
  }

  lemma LeadingUnderscoreShape(s: string, t: string)
    requires s == "_ 0x1" && t == " 0x1"
    ensures s == "_" + t && s[1..] == t
    ensures |t| >= 2 && t[0] == ' ' && !IsWhitespace(t[|t| - 1])
    ensures forall i :: 0 <= i < |t| ==> !('A' <= t[i] <= 'Z') && t[i] != '_'
  {
  }

  lemma LeadingBlankShape(t: string, blank: string, u: string, none: string)
    requires t == " 0x1" && blank == " " && u == "0x1" && none == ""
    ensures t == blank + u + none && AllWhitespace(blank) && AllWhitespace(none)
  {
  }

  lemma OneShape(u: string, d: string)
    requires u == "0x1" && d == "1"
    ensures Normalize(u) == PREFIX + d
  {
    assert u == PREFIX + d;
    NormalizeOfClean(u);
  }

  // ---------------------------------------------------------------------
  // The cases
  // ---------------------------------------------------------------------

  /** `0x123`. */
  lemma ParsePlain(s: string)
    requires s == "0x123"
    ensures FromStr(s) == Success(VirtualAddress(0x123))
  {
    var d := "123";
    PlainShape(s, d);
    PlainDigits(d);
    ParseNormal(s, d);
  }

  /** `0xdeadbeef` in normal form. */
  lemma ParseDeadBeef(s: string)
    requires s == "0xdeadbeef"
    ensures FromStr(s) == Success(VirtualAddress(0xdead_beef))
  {
    var d := "deadbeef";
    DeadBeefShape(s, d);
    DeadBeefDigits(d);
    ParseNormal(s, d);
  }

  /** `0xdead_beef`: the underscore is dropped. */
  lemma ParseWithUnderscore(s: string)
    requires s == "0xdead_beef"
    ensures FromStr(s) == Success(VirtualAddress(0xdead_beef))
  {
    var p, q, t := "0xdead", "beef", "0xdeadbeef";
    UnderscoreShape(s, p, q, t);
    ParseIgnoresInnerUnderscore(p, q);
    ParseDeadBeef(t);
  }

  /** `0xdEAd_bEEF`: capitals read as lowercase digits. */
  lemma ParseMixedCase(s: string)
    requires s == "0xdEAd_bEEF"
    ensures FromStr(s) == Success(VirtualAddress(0xdead_beef))
  {
    var t := "0xdead_beef";
    MixedCaseShape(s, t);
    ParseIgnoresCase(s, t);
    ParseWithUnderscore(t);
  }

  /** `    0xdEAd_bEEF    `: surrounding blanks and letter case are ignored. */
  lemma ParseSurroundedMixedCase(s: string)
    requires s == "    0xdEAd_bEEF    "
    ensures FromStr(s) == Success(VirtualAddress(0xdead_beef))
  {
    var blanks, core := "    ", "0xdEAd_bEEF";
    SurroundedShape(s, blanks, core);
    ParseIgnoresSurroundingWhitespace(blanks, core, blanks);
    ParseMixedCase(core);
  }

  /** `0xdead_beef_1337_1337` uses all 64 bits; its `u32` conversion keeps `0x1337_1337`. */
  lemma ParseFullWidth(s: string)
    requires s == "0xdead_beef_1337_1337"
    ensures FromStr(s) == Success(VirtualAddress(0xdead_beef_1337_1337))
    ensures ToU32(FromStr(s).value) == 0x1337_1337
  {
    var d := "deadbeef13371337";
    FullWidthShape(s, d);
    FullWidthDigits(d);
    ParseNormal(s, d);
  }

  /** `0X1F`: lowercasing happens before the prefix check, so `0X` is accepted. */
  lemma ParseUppercasePrefix(s: string)
    requires s == "0X1F"
    ensures FromStr(s) == Success(VirtualAddress(0x1f))
  {
    var t, d := "0x1f", "1f";
    UppercasePrefixShape(s, t);
    ParseIgnoresCase(s, t);
    OneFShape(t, d);
    OneFDigits(d);
    ParseNormal(t, d);
  }

  /** `0x+ff`: the digit reader accepts one leading plus sign. */
  lemma ParsePlusSign(s: string)
    requires s == "0x+ff"
    ensures FromStr(s) == Success(VirtualAddress(0xff))
  {
    var signed, d := "+ff", "ff";
    PlusSignShape(s, signed, d);
    TwoEfs(d);
    ParseSignedNormal(s, signed, d);
  }

  /** `0x` alone has no digits: the digit reader rejects the empty text. */
  lemma ParseNoDigits(s: string)
    requires s == "0x"
    ensures FromStr(s) == Failure(ParseIntError)
  {
    NormalizeOfClean(s);
    NothingAfterPrefix(s);
  }

  /** `0x-1`: a minus sign is not a digit of an unsigned number. */
  lemma ParseMinusSign(s: string)
    requires s == "0x-1"
    ensures FromStr(s) == Failure(ParseIntError)
  {
    var rest := "-1";
    MinusSignShape(s, rest);
    ParseNegative(s, rest);
  }

  /** `0x10000000000000000` is 2^64, one past the largest `u64`. */
  lemma ParseTooLarge(s: string)
    requires s == "0x10000000000000000"
    ensures FromStr(s) == Failure(ParseIntError)
  {
    var d := "10000000000000000";
    TooLargeShape(s, d);
    TwoToTheSixtyFourDigits(d);
    ParseOverflow(s, d);
  }

  /** `123`: no `0x` prefix. */
  lemma ParseMissingPrefix(s: string)
    requires s == "123"
    ensures FromStr(s) == Failure(MissingPrefix)
  {
    NormalizeOfClean(s);
    NotPrefixed(s);
  }

  /**
   Trimming runs before the underscores are removed: `_ 0x1` keeps its blank
   and lacks the prefix, although ` 0x1` parses.
   */
  lemma LeadingUnderscoreKeepsBlank(s: string)
    requires s == "_ 0x1"
    ensures FromStr(s) == Failure(MissingPrefix)
    ensures FromStr(s[1..]) == Success(VirtualAddress(1))
  {
    var t := " 0x1";
    LeadingUnderscoreShape(s, t);
    NormalizeAfterUnderscore(s, t);
    NotPrefixed(t);
    ParseLeadingBlank(t);
  }

  /** ` 0x1`: the leading blank is trimmed. */
  lemma ParseLeadingBlank(t: string)
    requires t == " 0x1"
    ensures FromStr(t) == Success(VirtualAddress(1))
  {
    var blank, u, none, d := " ", "0x1", "", "1";
    LeadingBlankShape(t, blank, u, none);
    ParseIgnoresSurroundingWhitespace(blank, u, none);
    OneShape(u, d);
    OneDigit(d);
    ParseNormal(u, d);
  }
}
