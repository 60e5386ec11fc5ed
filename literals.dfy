/** The literals `parse_num` understands, written out from a value, and the
    proof that parsing them gives the value back (negated modulo 2^128 after
    a `-`). */
module Literals {
  import opened Word
  import opened Radix
  import opened Converter

  /** The ways of writing a number that `parse_num` tells apart by prefix:
      plain decimal, `0t`/`0T` decimal, `0x`/`0X` hexadecimal, `0b`/`0B`
      binary, and octal after a leading `0`. */
  datatype Notation = Decimal | ExplicitDecimal(upper: bool) | Hex(upper: bool) | Binary(upper: bool) | Octal

  function NotationRadix(notation: Notation): (r: nat)
    ensures 2 <= r <= 36
  {
    match notation
    case Decimal => 10
    case ExplicitDecimal(_) => 10
    case Hex(_) => 16
    case Binary(_) => 2
    case Octal => 8
  }

  /** The prefix that selects the notation. */
  function Prefix(notation: Notation): (r: string)
  {
    match notation
    case Decimal => ""
    case ExplicitDecimal(upper) => if upper then "0T" else "0t"
    case Hex(upper) => if upper then "0X" else "0x"
    case Binary(upper) => if upper then "0B" else "0b"
    case Octal => "0"
  }

  /** `v` written in `notation`, with a leading `-` when `negative`. */
  function Literal(v: nat, notation: Notation, negative: bool): (r: string)
  {
    var body := Prefix(notation) + ToDigits(v, NotationRadix(notation));
    if negative then "-" + body else body
  }

  /** Text not starting with `0` is read in decimal as it stands. */
  lemma DecimalDispatch(u: string)
    requires |u| > 0 && u[0] != '0'
    ensures Dispatch(u) == (10, u)
  {
    assert u != "0" && !StartsWith(u, "0") by { assert u[..1][0] == u[0]; }
    assert !StartsWith(u, "0x") && !StartsWith(u, "0X") by { assert |u| < 2 || u[..2][0] == u[0]; }
    assert !StartsWith(u, "0t") && !StartsWith(u, "0T") by { assert |u| < 2 || u[..2][0] == u[0]; }
    assert !StartsWith(u, "0b") && !StartsWith(u, "0B") by { assert |u| < 2 || u[..2][0] == u[0]; }
  }

  /** A `0` followed by anything but a prefix letter selects octal, and the
      `0` is kept. */
  lemma OctalDispatch(d: string)
    requires |d| > 0 && d[0] !in "xXtTbB"
    ensures Dispatch("0" + d) == (8, "0" + d)
  {
    var s := "0" + d;
    assert s[1] == d[0];
    assert s != "0" && StartsWith(s, "0") by { assert s[..1] == "0"; }
    assert !StartsWith(s, "0x") && !StartsWith(s, "0X") by { assert s[..2][1] == d[0]; }
    assert !StartsWith(s, "0t") && !StartsWith(s, "0T") by { assert s[..2][1] == d[0]; }
    assert !StartsWith(s, "0b") && !StartsWith(s, "0B") by { assert s[..2][1] == d[0]; }
  }

  /** A two-character prefix selects its radix and is dropped. */
  lemma PrefixDispatch(notation: Notation, d: string)
    requires notation.ExplicitDecimal? || notation.Hex? || notation.Binary?
    ensures Dispatch(Prefix(notation) + d) == (NotationRadix(notation), d)
  {
    var s := Prefix(notation) + d;
    assert s[..2] == Prefix(notation) && s[2..] == d;
    assert s != "0";
  }

  /** The prefix picks the notation's radix, and the digits handed on to
      `from_str_radix` are the written digits (keeping the `0` of an octal
      literal). */
  lemma DispatchLiteral(v: nat, notation: Notation)
    ensures !StartsWith(Prefix(notation) + ToDigits(v, NotationRadix(notation)), "-")
    ensures Dispatch(Prefix(notation) + ToDigits(v, NotationRadix(notation)))
      == (NotationRadix(notation),
          if notation == Octal then "0" + ToDigits(v, 8) else ToDigits(v, NotationRadix(notation)))
  {
    var radix := NotationRadix(notation);
    var d := ToDigits(v, radix);
    var s := Prefix(notation) + d;
    ToDigitsHead(v, radix);
    assert s[0] == if notation == Decimal then d[0] else '0';
    assert !StartsWith(s, "-") by { assert s[..1][0] == s[0]; }
    match notation
    case Decimal =>
      assert s == d;
      if v == 0 {
        assert d == "0";
      } else {
        DecimalDispatch(d);
      }
    case Octal =>
      assert '0' <= d[0] <= '7';
      OctalDispatch(d);
    case _ =>
      PrefixDispatch(notation, d);
  }

  /** `from_str_radix` on the digits of a literal: the value when it fits,
      an error when it does not. */
  lemma DigitsOfLiteral(v: nat, notation: Notation)
    ensures var radix := NotationRadix(notation);
      FromStrRadix(if notation == Octal then "0" + ToDigits(v, 8) else ToDigits(v, radix), radix)
        == if v < MODULUS then Some(v) else None
  {
    if notation == Octal {
      DigitsOfOctal(v);
    } else {
      DigitsOf(v, NotationRadix(notation));
    }
  }

  /** The digits of `v` in `radix`, without a prefix. */
  lemma DigitsOf(v: nat, radix: nat)
    requires 2 <= radix <= 36
    ensures FromStrRadix(ToDigits(v, radix), radix) == if v < MODULUS then Some(v) else None
  {
    if v < MODULUS {
      FromStrRadixRoundTrip(v, radix);
    } else {
      FromStrRadixOverflow(v, radix);
    }
  }

  /** The digits of an octal literal, with its leading `0`. */
  lemma DigitsOfOctal(v: nat)
    ensures FromStrRadix("0" + ToDigits(v, 8), 8) == if v < MODULUS then Some(v) else None
  {
    ToDigitsHead(v, 8);
    LeadingZeroDigits(ToDigits(v, 8), 8);
    DigitsOf(v, 8);
  }

  /** Parsing a literal gives back its value, negated modulo 2^128 when
      it carries a `-`. */
  lemma ParseLiteral(v: U128, notation: Notation, negative: bool)
    ensures ParseNum(Literal(v, notation, negative)) == Some(if negative then TwosComp(v) else v)
  {
    var body := Prefix(notation) + ToDigits(v, NotationRadix(notation));
    DispatchLiteral(v, notation);
    DigitsOfLiteral(v, notation);
    if negative {
      var s := "-" + body;
      assert s[..1] == "-" && s[1..] == body;
      WrappingNegation(v);
    }
  }

  /** A literal whose value does not fit 128 bits is refused, with or
      without a `-`. */
  lemma ParseLiteralOverflow(v: nat, notation: Notation, negative: bool)
    requires v >= MODULUS
    ensures ParseNum(Literal(v, notation, negative)) == None
  {
    var body := Prefix(notation) + ToDigits(v, NotationRadix(notation));
    DispatchLiteral(v, notation);
    DigitsOfLiteral(v, notation);
    if negative {
      var s := "-" + body;
      assert s[..1] == "-" && s[1..] == body;
    }
  }

  /** A leading `-` negates modulo 2^128 whatever follows it parses to, and
      fails exactly when that fails. */
  lemma ParseNegative(t: string)
    requires !StartsWith(t, "-")
    ensures ParseNum("-" + t) == match ParseNum(t)
      case None => None
      case Some(m) => Some(TwosComp(m))
  {
    var s := "-" + t;
    assert s[..1] == "-" && s[1..] == t;
    match ParseNum(t)
    case None =>
    case Some(m) => WrappingNegation(m);
  }

  /** `-0` is `0`: zero has a single representation. */
  lemma NegativeZero()
    ensures ParseNum("-0") == ParseNum("0") == Some(0)
  {
    assert Literal(0, Decimal, false) == "0";
    ParseLiteral(0, Decimal, false);
    assert !StartsWith("0", "-");
    assert "-0" == "-" + "0";
    ParseNegative("0");
    TwosCompZero();
  }
}
