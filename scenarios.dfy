/** Whole runs of the converter: what it prints for a literal written in any
    notation, by the value and sign written; and a few particular literals. */
module Scenarios {
  import opened Word
  import opened Radix
  import opened Converter
  import opened Literals

  /** Only the powers of two from 4 to 128 are accepted as widths. */
  lemma Widths()
    ensures ValidWidth(4) && ValidWidth(8) && ValidWidth(128)
    ensures !ValidWidth(2) && !ValidWidth(6) && !ValidWidth(12) && !ValidWidth(256)
  {
    ValidWidths(4);
    ValidWidths(8);
    ValidWidths(128);
    ValidWidths(2);
    ValidWidths(6);
    ValidWidths(12);
    ValidWidths(256);
  }

  /** A literal without a `-` is handed straight to the prefix dispatch. */
  lemma Unsigned(s: string)
    requires |s| > 0 && s[0] != '-'
    ensures ParseNum(s) == FromStrRadix(Dispatch(s).1, Dispatch(s).0)
  {
    assert !StartsWith(s, "-") by { assert s[..1][0] == s[0]; }
  }

  /** A prefix with no digits after it (`0x`, `0B`, `0t`, ...) is refused. */
  lemma EmptyDigits(notation: Notation)
    requires notation.ExplicitDecimal? || notation.Hex? || notation.Binary?
    ensures ParseNum(Prefix(notation)) == None
  {
    assert Prefix(notation) + "" == Prefix(notation);
    PrefixDispatch(notation, "");
    Unsigned(Prefix(notation));
  }

  /** An empty literal, and a lone `-`, leave no digits and are refused. */
  lemma NoDigits()
    ensures ParseNum("") == None
    ensures ParseNum("-") == None
  {
    assert !StartsWith("", "-");
    assert "-"[..1] == "-" && "-"[1..] == "";
    assert Dispatch("") == (10, "");
  }

  /** After a leading `0` and anything but a prefix letter or a sign, the
      literal is read in octal, the `0` included: a decimal-looking `010` is
      eight, and `08` is refused. */
  lemma OctalLiteral(d: string)
    requires |d| > 0 && d[0] !in "xXtTbB+-"
    ensures ParseNum("0" + d) == FromStrRadix(d, 8)
  {
    Unsigned("0" + d);
    OctalDispatch(d);
    LeadingZeroDigits(d, 8);
  }

  /** Any other character after a leading `0` also takes the octal arm,
      where it is refused unless it is an octal digit: `0o17`, `0+5` and
      `0_1` are malformed. */
  lemma OctalArmRefused(d: string)
    requires |d| > 0 && d[0] !in "xXtTbB" && ToDigit(d[0], 8).None?
    ensures ParseNum("0" + d) == None
  {
    Unsigned("0" + d);
    OctalDispatch(d);
    assert !IsDigits("0" + d, 8) by { assert ("0" + d)[1] == d[0]; }
  }

  /** Digit letters are read in either case: `0xFB` is 251. */
  lemma UpperCaseDigits()
    ensures ParseNum("0xFB") == Some(0xfb)
  {
    assert Prefix(Hex(false)) + "FB" == "0xFB";
    PrefixDispatch(Hex(false), "FB");
    Unsigned("0xFB");
    UpperHexDigits();
  }

  /** The upper-case digits `FB` are 251 in radix 16. */
  lemma UpperHexDigits()
    ensures FromStrRadix("FB", 16) == Some(0xfb)
  {
    ToDigitUpper(15, 16);
    ToDigitUpper(11, 16);
    assert IsDigits("FB", 16);
    assert DigitsValue("FB", 16) == 0xfb by {
      assert "FB"[..1] == "F" && "F"[..0] == "";
      assert DigitsValue("F", 16) == 15;
    }
  }

  /** A literal starting with `-` has its digits parsed without it and negated. */
  lemma MinusSign(s: string)
    requires |s| > 0 && s[0] == '-'
    ensures ParseNum(s) == match FromStrRadix(Dispatch(s[1..]).1, Dispatch(s[1..]).0)
      case None => None
      case Some(m) => Some(WrappingSub(0, m))
  {
    assert StartsWith(s, "-") by { assert s[..1] == "-"; }
  }

  /** Only one `-` is stripped: a second one is an invalid digit. */
  lemma DoubleMinus(t: string)
    ensures ParseNum("--" + t) == None
  {
    var s := "--" + t;
    var u := "-" + t;
    assert s[1..] == u && s[0] == '-' && u[0] == '-';
    DecimalDispatch(u);
    MinusRefused(u, 10);
    MinusSign(s);
  }

  /** A run on a literal that parses to `num`, in terms of `num` alone. */
  lemma RunParsed(literal: string, num: U128, nbits: nat)
    requires ValidWidth(nbits) && ParseNum(literal) == Some(num)
    ensures Run(literal, nbits).Ok? <==> num < Pow2(nbits) || num >= MODULUS - Pow2(nbits - 1)
    ensures Run(literal, nbits).Ok? ==>
      var c := Run(literal, nbits).value;
      && c.shownNum == num % Pow2(nbits)
      && c.shownN2c == Negated(num % Pow2(nbits), nbits)
      && c.snum == Signed(num % Pow2(nbits), nbits)
      && c.sn2c == (if c.snum == -(Pow2(nbits - 1) as int) then c.snum else -c.snum)
  {
    RunOutcome(literal, nbits);
  }

  /** `-c` modulo 2^nbits for a pattern `c` of the width. */
  lemma NegatedValue(c: nat, nbits: nat)
    requires c < Pow2(nbits)
    ensures Negated(c, nbits) == if c == 0 then 0 else Pow2(nbits) - c
  {
    if c == 0 {
      DivModSplit(0, Pow2(nbits), 1);
    } else {
      DivModSplit(Pow2(nbits) - c, Pow2(nbits), 0);
    }
  }

  /** A literal written without a sign: accepted exactly when its value fits
      the width unsigned or is the sign extension of a negative pattern;
      when it fits unsigned it is shown as itself, read as a signed
      `nbits`-bit value, and negated (the most negative value staying put). */
  lemma RunNonNegative(v: U128, notation: Notation, nbits: nat)
    requires ValidWidth(nbits)
    ensures Run(Literal(v, notation, false), nbits).Ok?
      <==> v < Pow2(nbits) || v >= MODULUS - Pow2(nbits - 1)
    ensures v < Pow2(nbits) ==>
      var c := Run(Literal(v, notation, false), nbits).value;
      && c.shownNum == v
      && c.shownN2c == (if v == 0 then 0 else Pow2(nbits) - v)
      && c.snum == (if v < Pow2(nbits - 1) then v else v - Pow2(nbits))
      && c.sn2c == (if v == Pow2(nbits - 1) then c.snum else -c.snum)
  {
    ParseLiteral(v, notation, false);
    RunParsed(Literal(v, notation, false), v, nbits);
    if v < Pow2(nbits) {
      SmallLowBits(v, nbits);
      NegatedValue(v, nbits);
      assert Pow2(nbits) == 2 * Pow2(nbits - 1) by { WidthFacts(nbits); }
    }
  }

  /** The word `-v` for a magnitude `v` up to 2^(nbits-1): its low bits,
      their signed value and their negation. */
  lemma NegativeWord(v: nat, nbits: nat)
    requires 1 <= nbits <= 128 && 0 < v <= Pow2(nbits - 1)
    ensures (MODULUS - v) % Pow2(nbits) == Pow2(nbits) - v
    ensures Signed((MODULUS - v) % Pow2(nbits), nbits) == -(v as int)
    ensures Negated((MODULUS - v) % Pow2(nbits), nbits) == v
  {
    assert v < Pow2(nbits) <= MODULUS by { WidthFacts(nbits); }
    NegativeLowBits(MODULUS - v, nbits);
    NegatedValue(Pow2(nbits) - v, nbits);
  }

  /** A literal `-t`, where `t` parses to a magnitude `v` in 1 .. 2^128 - 1,
      is negated modulo 2^128 before the range check: it is accepted when
      `v` is at most 2^(nbits-1), and also when the wrapped word `2^128 - v`
      happens to fit the width unsigned. */
  lemma RunNegativeAccepts(t: string, v: U128, nbits: nat)
    requires ValidWidth(nbits) && !StartsWith(t, "-") && ParseNum(t) == Some(v) && 0 < v
    ensures Run("-" + t, nbits).Ok? <==> v <= Pow2(nbits - 1) || v + Pow2(nbits) > MODULUS
  {
    ParseNegative(t);
    RunParsed("-" + t, TwosComp(v), nbits);
    WrappedRange(v, nbits);
  }

  /** The range check on the wrapped word `2^128 - v`, in terms of `v`. */
  lemma WrappedRange(v: U128, nbits: nat)
    requires 1 <= nbits <= 128 && 0 < v
    ensures (TwosComp(v) < Pow2(nbits) || TwosComp(v) >= MODULUS - Pow2(nbits - 1))
      <==> (v <= Pow2(nbits - 1) || v + Pow2(nbits) > MODULUS)
  {
    TwosCompNonZero(v);
    WidthFacts(nbits);
  }

  /** `-t` for a magnitude up to 2^(nbits-1) is shown as `-v`, with low bits
      2^nbits - v, and its complement as `v`, except that `-2^(nbits-1)` is
      its own complement. */
  lemma RunNegative(t: string, v: U128, nbits: nat)
    requires ValidWidth(nbits) && !StartsWith(t, "-") && ParseNum(t) == Some(v) && 0 < v <= Pow2(nbits - 1)
    ensures Run("-" + t, nbits).Ok?
    ensures var c := Run("-" + t, nbits).value;
      && c.shownNum == Pow2(nbits) - v
      && c.shownN2c == v
      && c.snum == -(v as int)
      && c.sn2c == (if v == Pow2(nbits - 1) then -(v as int) else v)
  {
    ParseNegative(t);
    TwosCompNonZero(v);
    RunParsed("-" + t, MODULUS - v, nbits);
    NegativeWord(v, nbits);
  }

  /** A literal whose value does not fit 128 bits never reaches the range
      check: it is malformed, with or without a `-`. */
  lemma RunOverflow(v: nat, notation: Notation, negative: bool, nbits: nat)
    requires ValidWidth(nbits) && v >= MODULUS
    ensures Run(Literal(v, notation, negative), nbits) == Err(MalformedLiteral)
  {
    ParseLiteralOverflow(v, notation, negative);
    RunOutcome(Literal(v, notation, negative), nbits);
  }

  /** The widest negative literal wraps to 1: `-(2^128 - 1)` is accepted at
      every width and shown as 1. */
  lemma RunWrapsAround(notation: Notation, nbits: nat)
    requires ValidWidth(nbits)
    ensures Run(Literal(MODULUS - 1, notation, true), nbits).Ok?
    ensures Run(Literal(MODULUS - 1, notation, true), nbits).value.snum == 1
  {
    var literal := Literal(MODULUS - 1, notation, true);
    ParseLiteral(MODULUS - 1, notation, true);
    TwosCompValue(MODULUS - 1);
    WidthFacts(nbits);
    RunOutcome(literal, nbits);
    Pow2Monotone(1, nbits);
    SmallLowBits(1, nbits);
  }

  /** At width 128 every word fits, so a literal `parse_num` accepts is
      never out of range. */
  lemma RunFullWidth(literal: string)
    ensures ValidWidth(128)
    ensures Run(literal, 128) != Err(OutOfRange)
  {
    ValidWidths(128);
    Pow2Modulus();
    RunOutcome(literal, 128);
  }

  // ---------------------------------------------------------------------------
  // Particular literals
  // ---------------------------------------------------------------------------

  lemma EightBits()
    ensures ValidWidth(8) && Pow2(7) == 128 && Pow2(8) == 256
  {
    ValidWidths(8);
  }

  /** Sixteen with a two-letter prefix, in either case. */
  lemma SixteenPrefixed()
    ensures ParseNum("0x10") == Some(16) && ParseNum("0X10") == Some(16)
    ensures ParseNum("0t16") == Some(16) && ParseNum("0b10000") == Some(16)
  {
    assert ToDigits(16, 10) == "16";
    assert ToDigits(16, 16) == "10";
    assert ToDigits(16, 2) == "10000";
    assert Literal(16, Hex(false), false) == "0x10";
    assert Literal(16, Hex(true), false) == "0X10";
    assert Literal(16, ExplicitDecimal(false), false) == "0t16";
    assert Literal(16, Binary(false), false) == "0b10000";
    ParseLiteral(16, Hex(false), false);
    ParseLiteral(16, Hex(true), false);
    ParseLiteral(16, ExplicitDecimal(false), false);
    ParseLiteral(16, Binary(false), false);
  }

  /** Sixteen in plain decimal and in octal after a leading `0`; the bare
      `0` alone is taken as decimal, before the octal rule. */
  lemma SixteenUnprefixed()
    ensures ParseNum("16") == Some(16) && ParseNum("020") == Some(16)
    ensures Dispatch("0") == (10, "0")
  {
    assert ToDigits(16, 10) == "16";
    assert ToDigits(16, 8) == "20";
    assert Literal(16, Decimal, false) == "16";
    assert Literal(16, Octal, false) == "020";
    ParseLiteral(16, Decimal, false);
    ParseLiteral(16, Octal, false);
  }

  /** `08` is refused: after a leading `0` the digits are octal. */
  lemma EightIsNotOctal()
    ensures ParseNum("08") == None
  {
    assert "08" == "0" + "8";
    OctalLiteral("8");
    assert ToDigit("8"[0], 8).None?;
  }

  /** `twoscomp 8 5`: the pattern 0x05, shown as 5, complement 0xfb shown
      as -5. */
  lemma FiveInEightBits()
    ensures Run("5", 8).Ok?
    ensures Run("5", 8).value.shownNum == 0x05 && Run("5", 8).value.snum == 5
    ensures Run("5", 8).value.shownN2c == 0xfb && Run("5", 8).value.sn2c == -5
  {
    EightBits();
    assert Literal(5, Decimal, false) == "5";
    RunNonNegative(5, Decimal, 8);
  }

  /** `twoscomp 8 -5`: the pattern 0xfb, shown as -5, complement 0x05
      shown as 5. */
  lemma MinusFiveInEightBits()
    ensures Run("-5", 8).Ok?
    ensures Run("-5", 8).value.shownNum == 0xfb && Run("-5", 8).value.snum == -5
    ensures Run("-5", 8).value.shownN2c == 0x05 && Run("-5", 8).value.sn2c == 5
  {
    EightBits();
    assert Literal(5, Decimal, false) == "5";
    ParseLiteral(5, Decimal, false);
    assert !StartsWith("5", "-");
    assert "-5" == "-" + "5";
    RunNegative("5", 5, 8);
  }

  /** `twoscomp 8 0x80`: the most negative 8-bit value, -128, is its own
      complement. */
  lemma MostNegativeInEightBits()
    ensures Run("0x80", 8).Ok?
    ensures Run("0x80", 8).value.shownNum == 0x80 && Run("0x80", 8).value.snum == -128
    ensures Run("0x80", 8).value.shownN2c == 0x80 && Run("0x80", 8).value.sn2c == -128
  {
    EightBits();
    assert ToDigits(128, 16) == "80";
    assert Literal(128, Hex(false), false) == "0x80";
    RunNonNegative(128, Hex(false), 8);
  }

  /** The 8-bit range, unsigned side: 255 fits and 256 does not. */
  lemma EightBitRangeAbove()
    ensures Run("255", 8).Ok? && Run("256", 8) == Err(OutOfRange)
  {
    EightBits();
    assert ToDigits(255, 10) == "255";
    assert ToDigits(256, 10) == "256";
    assert Literal(255, Decimal, false) == "255";
    assert Literal(256, Decimal, false) == "256";
    RunNonNegative(255, Decimal, 8);
    RunNonNegative(256, Decimal, 8);
    ParseLiteral(256, Decimal, false);
    RunOutcome("256", 8);
  }

  /** The 8-bit range, signed side: -128 fits... */
  lemma MinusOneTwentyEight()
    ensures Run("-128", 8).Ok?
  {
    EightBits();
    assert ToDigits(128, 10) == "128";
    assert Literal(128, Decimal, true) == "-128";
    ParseLiteral(128, Decimal, true);
    RunParsed(Literal(128, Decimal, true), TwosComp(128), 8);
    WrappedRange(128, 8);
  }

  /** ... and -129 does not. */
  lemma MinusOneTwentyNine()
    ensures Run("-129", 8) == Err(OutOfRange)
  {
    EightBits();
    assert ToDigits(129, 10) == "129";
    assert Literal(129, Decimal, true) == "-129";
    ParseLiteral(129, Decimal, true);
    RunParsed(Literal(129, Decimal, true), TwosComp(129), 8);
    WrappedRange(129, 8);
    RunOutcome("-129", 8);
  }
}
