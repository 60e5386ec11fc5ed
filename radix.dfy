/** Rust's `u128::from_str_radix`, which the literal parser calls once its
    prefix has chosen a radix: an optional `+`, then one or more digits of
    the radix (letters in either case), folded most significant first;
    the parse fails on an empty digit string, on a character that is not a
    digit of the radix and on a value above `u128::MAX`. */
module Radix {
  import opened Word

  datatype Option<+T> = None | Some(value: T)

  /** `c.to_digit(radix)`: `0`-`9`, then `a`-`z` or `A`-`Z` for 10 .. 35,
      provided the digit is below the radix. */
  function ToDigit(c: char, radix: nat): (r: Option<nat>)
    requires 2 <= radix <= 36
    ensures r.Some? ==> r.value < radix
  {
    var d :=
      if '0' <= c <= '9' then c as nat - '0' as nat
      else if 'a' <= c <= 'z' then c as nat - 'a' as nat + 10
      else if 'A' <= c <= 'Z' then c as nat - 'A' as nat + 10
      else 36;
    if d < radix then Some(d) else None
  }

  /** Every character of `s` is a digit of `radix`. */
  predicate IsDigits(s: string, radix: nat)
    requires 2 <= radix <= 36
  {
    forall i :: 0 <= i < |s| ==> ToDigit(s[i], radix).Some?
  }

  /** The value of a digit string, most significant digit first. */
  function DigitsValue(s: string, radix: nat): (r: nat)
    requires 2 <= radix <= 36 && IsDigits(s, radix)
  {
    if s == [] then 0
    else
      MulMonotone(radix, 0, DigitsValue(s[..|s| - 1], radix));
      DigitsValue(s[..|s| - 1], radix) * radix + ToDigit(s[|s| - 1], radix).value
  }

  /** `u128::from_str_radix(src, radix)`, with every error kind folded into `None`. */
  function FromStrRadix(src: string, radix: nat): (r: Option<U128>)
    requires 2 <= radix <= 36
  {
    if src == [] then None
    else if |src| == 1 && (src[0] == '+' || src[0] == '-') then None
    else
      var digits := if src[0] == '+' then src[1..] else src;
      if !IsDigits(digits, radix) then None
      else if DigitsValue(digits, radix) >= MODULUS then None
      else Some(DigitsValue(digits, radix))
  }

  // ---------------------------------------------------------------------------
  // The inverse: writing a number out in a radix
  // ---------------------------------------------------------------------------

  /** The lower-case digit character for `d`. */
  function DigitChar(d: nat): (c: char)
    requires d < 36
  {
    if d < 10 then ('0' as nat + d) as char else ('a' as nat + d - 10) as char
  }

  /** `v` written in `radix` with no leading zeros (`"0"` for zero). */
  function ToDigits(v: nat, radix: nat): (s: string)
    requires 2 <= radix <= 36
    ensures |s| >= 1
    decreases v
  {
    if v < radix then [DigitChar(v)]
    else ToDigits(v / radix, radix) + [DigitChar(v % radix)]
  }

  lemma DigitCharRoundTrip(d: nat, radix: nat)
    requires 2 <= radix <= 36 && d < radix
    ensures ToDigit(DigitChar(d), radix) == Some(d)
    ensures DigitChar(d) == '0' <==> d == 0
  {
  }

  /** An upper-case letter reads as the same digit as its lower-case form. */
  lemma ToDigitUpper(d: nat, radix: nat)
    requires 2 <= radix <= 36 && 10 <= d < radix
    ensures ToDigit(('A' as nat + d - 10) as char, radix) == Some(d)
    ensures ToDigit(('A' as nat + d - 10) as char, radix) == ToDigit(DigitChar(d), radix)
  {
    DigitCharRoundTrip(d, radix);
  }

  /** Reading back what `ToDigits` wrote gives the number. */
  lemma {:induction false} ToDigitsRoundTrip(v: nat, radix: nat)
    requires 2 <= radix <= 36
    ensures IsDigits(ToDigits(v, radix), radix)
    ensures DigitsValue(ToDigits(v, radix), radix) == v
    decreases v
  {
    var s := ToDigits(v, radix);
    if v < radix {
      DigitCharRoundTrip(v, radix);
      assert s[..0] == [];
    } else {
      var p := ToDigits(v / radix, radix);
      DivShrinks(v, radix);
      ToDigitsRoundTrip(v / radix, radix);
      DigitCharRoundTrip(v % radix, radix);
      var c := DigitChar(v % radix);
      assert s == p + [c];
      assert s[..|s| - 1] == p;
      assert IsDigits(s, radix) by {
        forall i | 0 <= i < |s| ensures ToDigit(s[i], radix).Some? {
          if i < |p| { assert s[i] == p[i]; } else { assert s[i] == c; }
        }
      }
      assert DigitsValue(s, radix) == DigitsValue(p, radix) * radix + ToDigit(c, radix).value;
      DivModIdentity(v, radix);
    }
  }

  /** The first digit `ToDigits` writes is a digit of the radix, and it is `0`
      only for zero. */
  lemma {:induction false} ToDigitsHead(v: nat, radix: nat)
    requires 2 <= radix <= 36
    ensures ToDigit(ToDigits(v, radix)[0], radix).Some?
    ensures ToDigits(v, radix)[0] == '0' <==> v == 0
    decreases v
  {
    if v < radix {
      DigitCharRoundTrip(v, radix);
    } else {
      DivShrinks(v, radix);
      ToDigitsHead(v / radix, radix);
    }
  }

  /** A leading zero changes neither the validity nor the value of a digit string. */
  lemma {:induction false} LeadingZero(s: string, radix: nat)
    requires 2 <= radix <= 36 && IsDigits(s, radix)
    ensures IsDigits("0" + s, radix)
    ensures DigitsValue("0" + s, radix) == DigitsValue(s, radix)
  {
    var z := "0" + s;
    assert z[0] == '0';
    assert forall i :: 1 <= i < |z| ==> z[i] == s[i - 1];
    if s == [] {
      assert z[..0] == [];
    } else {
      var s' := s[..|s| - 1];
      assert z[..|z| - 1] == "0" + s';
      LeadingZero(s', radix);
    }
  }

  /** `from_str_radix` inverts `ToDigits` on every `u128`. */
  lemma FromStrRadixRoundTrip(v: U128, radix: nat)
    requires 2 <= radix <= 36
    ensures FromStrRadix(ToDigits(v, radix), radix) == Some(v)
  {
    ToDigitsRoundTrip(v, radix);
    ToDigitsHead(v, radix);
  }

  /** Digits whose value does not fit 128 bits are refused. */
  lemma FromStrRadixOverflow(v: nat, radix: nat)
    requires 2 <= radix <= 36 && v >= MODULUS
    ensures FromStrRadix(ToDigits(v, radix), radix) == None
  {
    ToDigitsRoundTrip(v, radix);
    ToDigitsHead(v, radix);
  }

  /** One leading `+` is accepted and ignored. */
  lemma PlusSign(s: string, radix: nat)
    requires 2 <= radix <= 36 && s != [] && s[0] != '+'
    ensures FromStrRadix("+" + s, radix) == FromStrRadix(s, radix)
  {
    assert ("+" + s)[1..] == s;
  }

  /** A leading `0` in front of a digit string changes nothing. */
  lemma LeadingZeroDigits(d: string, radix: nat)
    requires 2 <= radix <= 36 && d != [] && d[0] != '+' && d[0] != '-'
    ensures FromStrRadix("0" + d, radix) == FromStrRadix(d, radix)
  {
    var z := "0" + d;
    assert z[0] == '0' && z[1..] == d;
    if IsDigits(d, radix) {
      LeadingZero(d, radix);
    } else {
      var i :| 0 <= i < |d| && ToDigit(d[i], radix).None?;
      assert z[i + 1] == d[i];
    }
  }

  /** An unsigned parse refuses a `-`. */
  lemma MinusRefused(s: string, radix: nat)
    requires 2 <= radix <= 36 && s != [] && s[0] == '-'
    ensures FromStrRadix(s, radix) == None
  {
    assert ToDigit(s[0], radix).None?;
  }
}
