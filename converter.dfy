/** The converter of src/main.rs: a literal is parsed into a `u128`
    (`parse_num`), checked against and sign-extended to a width of 4 .. 128
    bits (`signextend` and the range check in `main`), negated in two's
    complement (`twoscomp`, then sign-extended again), and read back as
    `i128` for its signed decimal value. */
module Converter {
  import opened Word
  import opened Radix

  // ---------------------------------------------------------------------------
  // Widths
  // ---------------------------------------------------------------------------

  /** `n.is_power_of_two()`. */
  predicate IsPowerOfTwo(n: nat)
  {
    n == 1 || (n >= 2 && n % 2 == 0 && IsPowerOfTwo(n / 2))
  }

  /** The widths `main` lets through: a power of two in 4 ..= 128. */
  predicate ValidWidth(nbits: nat)
  {
    IsPowerOfTwo(nbits) && 4 <= nbits <= 128
  }

  lemma {:induction false} PowersUpTo128(n: nat)
    requires IsPowerOfTwo(n) && n <= 128
    ensures n in {1, 2, 4, 8, 16, 32, 64, 128}
  {
    if n != 1 {
      PowersUpTo128(n / 2);
    }
  }

  /** Exactly six widths are valid. */
  lemma ValidWidths(nbits: nat)
    ensures ValidWidth(nbits) <==> nbits in {4, 8, 16, 32, 64, 128}
  {
    if ValidWidth(nbits) {
      PowersUpTo128(nbits);
    }
    if nbits in {4, 8, 16, 32, 64, 128} {
      assert IsPowerOfTwo(1) && IsPowerOfTwo(2) && IsPowerOfTwo(4) && IsPowerOfTwo(8);
      assert IsPowerOfTwo(16) && IsPowerOfTwo(32) && IsPowerOfTwo(64) && IsPowerOfTwo(128);
    }
  }

  // ---------------------------------------------------------------------------
  // parse_num
  // ---------------------------------------------------------------------------

  predicate StartsWith(s: string, prefix: string)
  {
    |prefix| <= |s| && s[..|prefix|] == prefix
  }

  /** The radix a literal's prefix selects, and the digits handed on to
      `from_str_radix`, tried in the order of the `match` in `parse_num`. */
  function Dispatch(s: string): (r: (nat, string))
    ensures r.0 in {2, 8, 10, 16}
    ensures |r.1| <= |s| && r.1 == s[|s| - |r.1|..]
  {
    if s == "0" then (10, "0")
    else if StartsWith(s, "0x") || StartsWith(s, "0X") then (16, s[2..])
    else if StartsWith(s, "0t") || StartsWith(s, "0T") then (10, s[2..])
    else if StartsWith(s, "0b") || StartsWith(s, "0B") then (2, s[2..])
    else if StartsWith(s, "0") then (8, s)
    else (10, s)
  }

  /** `parse_num`: strip one leading `-`, pick the radix from the prefix,
      parse the digits, and negate modulo 2^128 when the `-` was there. */
  function ParseNum(num: string): (r: Option<U128>)
  {
    var pos := !StartsWith(num, "-");
    var (radix, numstr) := Dispatch(if pos then num else num[1..]);
    match FromStrRadix(numstr, radix)
    case None => None
    case Some(m) => Some(if pos then m else WrappingSub(0, m))
  }

  // ---------------------------------------------------------------------------
  // signextend
  // ---------------------------------------------------------------------------

  /** `!0u128 >> (128 - nbits)`: ones in exactly the low `nbits` bits. */
  function Mask(nbits: nat): (r: U128)
    requires 1 <= nbits <= 128
    ensures r == Pow2(nbits) - 1
  {
    Pow2Modulus();
    Pow2Divides(128 - nbits, 128);
    AllOnesQuotient(Pow2(128 - nbits), Pow2(nbits));
    ShiftRight(Not(0), 128 - nbits)
  }

  /** `signextend(n, nbits)`: when bit `nbits - 1` is set every bit above it
      is set (`n | !mask`), otherwise every bit above it is cleared
      (`n & mask`). Its value is the low `nbits` bits of `n`, plus
      2^128 - 2^nbits for a negative pattern. */
  function SignExtend(n: U128, nbits: nat): (r: U128)
    requires 1 <= nbits <= 128
  {
    var mask := Mask(nbits);
    var neg := And(ShiftRight(n, nbits - 1), 1) == 1;
    MaskedBits(n, nbits);
    if neg then Or(n, Not(mask)) else And(n, mask)
  }

  /** The value of `signextend`: the low `nbits` bits of `n`, plus
      2^128 - 2^nbits when bit `nbits - 1` is set. */
  lemma SignExtendValue(n: U128, nbits: nat)
    requires 1 <= nbits <= 128
    ensures SignExtend(n, nbits)
      == n % Pow2(nbits) + (if Bit(n, nbits - 1) == 1 then MODULUS - Pow2(nbits) else 0)
  {
    MaskedBits(n, nbits);
  }

  /** `n & mask` keeps the low `nbits` bits. */
  lemma MaskLowBits(n: U128, nbits: nat)
    requires 1 <= nbits <= 128
    ensures And(n, Mask(nbits)) == n % Pow2(nbits)
  {
    AndLowMask(n, nbits);
  }

  /** What the three bitwise expressions of `signextend` compute. */
  lemma MaskedBits(n: U128, nbits: nat)
    requires 1 <= nbits <= 128
    ensures And(ShiftRight(n, nbits - 1), 1) == Bit(n, nbits - 1)
    ensures And(n, Mask(nbits)) == n % Pow2(nbits)
    ensures Or(n, Not(Mask(nbits))) == n % Pow2(nbits) + (MODULUS - Pow2(nbits))
    ensures n % Pow2(nbits) + (MODULUS - Pow2(nbits)) < MODULUS
  {
    assert And(ShiftRight(n, nbits - 1), 1) == Bit(n, nbits - 1) by {
      AndLowMask(ShiftRight(n, nbits - 1), 1);
      assert Pow2(1) == 2;
    }
    assert And(n, Mask(nbits)) == n % Pow2(nbits) by { MaskLowBits(n, nbits); }
    assert Or(n, Not(Mask(nbits))) == n % Pow2(nbits) + (MODULUS - Pow2(nbits))
        && Pow2(nbits) <= MODULUS by {
      Pow2Modulus();
      assert Not(Mask(nbits)) == Pow2(128) - Pow2(nbits);
      OrHighMask(n, 128, nbits);
    }
    assert n % Pow2(nbits) < Pow2(nbits);
  }

  /** The low `nbits` bits survive sign extension. */
  lemma SignExtendLowBits(n: U128, nbits: nat)
    requires 1 <= nbits <= 128
    ensures SignExtend(n, nbits) % Pow2(nbits) == n % Pow2(nbits)
    ensures SignExtend(n, nbits) / Pow2(nbits)
      == if Bit(n, nbits - 1) == 1 then Pow2(128 - nbits) - 1 else 0
  {
    WidthFacts(nbits);
    SignExtendValue(n, nbits);
    if Bit(n, nbits - 1) == 1 {
      assert SignExtend(n, nbits) == Pow2(nbits) * (Pow2(128 - nbits) - 1) + n % Pow2(nbits);
      DivModSplit(n % Pow2(nbits), Pow2(nbits), Pow2(128 - nbits) - 1);
    } else {
      assert SignExtend(n, nbits) == Pow2(nbits) * 0 + n % Pow2(nbits);
      DivModSplit(n % Pow2(nbits), Pow2(nbits), 0);
    }
  }

  /** Sign extension keeps bits 0 .. nbits-1 and copies bit nbits-1 into
      every bit above it. */
  lemma SignExtendBits(n: U128, nbits: nat, i: nat)
    requires 1 <= nbits <= 128 && i < 128
    ensures Bit(SignExtend(n, nbits), i) == if i < nbits then Bit(n, i) else Bit(n, nbits - 1)
  {
    if i < nbits {
      SignExtendBitsBelow(n, nbits, i);
    } else {
      SignExtendBitsAbove(n, nbits, i);
    }
  }

  lemma SignExtendBitsBelow(n: U128, nbits: nat, i: nat)
    requires 1 <= nbits <= 128 && i < nbits
    ensures Bit(SignExtend(n, nbits), i) == Bit(n, i)
  {
    var r := SignExtend(n, nbits);
    assert Bit(r, i) == Bit(r % Pow2(nbits), i) by { BitBelow(r, i, nbits); }
    assert r % Pow2(nbits) == n % Pow2(nbits) by { SignExtendLowBits(n, nbits); }
    assert Bit(n % Pow2(nbits), i) == Bit(n, i) by { BitBelow(n, i, nbits); }
  }

  lemma SignExtendBitsAbove(n: U128, nbits: nat, i: nat)
    requires 1 <= nbits <= 128 && nbits <= i < 128
    ensures Bit(SignExtend(n, nbits), i) == Bit(n, nbits - 1)
  {
    SignExtendLowBits(n, nbits);
    FilledBits(SignExtend(n, nbits), nbits, i - nbits, 128 - nbits, Bit(n, nbits - 1) == 1);
    assert Bit(n, nbits - 1) == 0 || Bit(n, nbits - 1) == 1;
  }

  /** Sign-extending twice is sign-extending once. */
  lemma SignExtendIdempotent(n: U128, nbits: nat)
    requires 1 <= nbits <= 128
    ensures SignExtend(SignExtend(n, nbits), nbits) == SignExtend(n, nbits)
  {
    var r := SignExtend(n, nbits);
    assert r % Pow2(nbits) == n % Pow2(nbits) by { SignExtendLowBits(n, nbits); }
    assert Bit(r, nbits - 1) == Bit(n, nbits - 1) by { SignExtendBits(n, nbits, nbits - 1); }
    SignExtendValue(n, nbits);
    SignExtendValue(r, nbits);
  }

  /** At the full width of 128 bits sign extension changes nothing. */
  lemma SignExtendFullWidth(n: U128)
    ensures SignExtend(n, 128) == n
  {
    SignExtendValue(n, 128);
    Pow2Modulus();
    DivModSplit(n, MODULUS, 0);
  }

  /** `p` is already the sign extension of its low `nbits` bits. */
  predicate IsSignExtended(p: U128, nbits: nat)
    requires 1 <= nbits <= 128
  {
    SignExtend(p, nbits) == p
  }

  /** The sign bit read off the low `nbits` bits. */
  lemma SignBit(n: nat, nbits: nat)
    requires 1 <= nbits
    ensures Pow2(nbits) == 2 * Pow2(nbits - 1)
    ensures Bit(n, nbits - 1) == (n % Pow2(nbits)) / Pow2(nbits - 1)
    ensures Bit(n, nbits - 1) == 1 <==> n % Pow2(nbits) >= Pow2(nbits - 1)
  {
    var h := Pow2(nbits - 1);
    assert Pow2(nbits) == 2 * h;
    DivModTwo(n, h);
    var c := n % (2 * h);
    if c < h {
      DivModSplit(c, h, 0);
    } else {
      DivModSplit(c - h, h, 1);
    }
  }

  /** How a width divides the word. */
  lemma WidthFacts(nbits: nat)
    requires 1 <= nbits <= 128
    ensures Pow2(nbits) == 2 * Pow2(nbits - 1)
    ensures MODULUS == Pow2(nbits) * Pow2(128 - nbits)
    ensures MODULUS - Pow2(nbits) == Pow2(nbits) * (Pow2(128 - nbits) - 1)
    ensures Pow2(nbits - 1) <= HALF && Pow2(nbits) <= MODULUS
  {
    Pow2Modulus();
    Pow2Half();
    Pow2Divides(nbits, 128);
    Pow2Divides(nbits - 1, 127);
    MulPred(Pow2(nbits), Pow2(128 - nbits));
    assert Pow2(nbits) == 2 * Pow2(nbits - 1);
  }

  /** A word below 2^nbits is its own low bits. */
  lemma SmallLowBits(p: nat, nbits: nat)
    requires p < Pow2(nbits)
    ensures p % Pow2(nbits) == p
  {
    DivModSplit(p, Pow2(nbits), 0);
  }

  /** A word in the top 2^nbits of the range has low bits
      p - (2^128 - 2^nbits). */
  lemma NegativeLowBits(p: U128, nbits: nat)
    requires 1 <= nbits <= 128 && p >= MODULUS - Pow2(nbits)
    ensures p % Pow2(nbits) == p - (MODULUS - Pow2(nbits))
  {
    WidthFacts(nbits);
    TopResidue(p, Pow2(nbits), Pow2(128 - nbits), MODULUS);
  }

  /** The top `bigP` values below `m = bigP * q` have residue `p - (m - bigP)`. */
  lemma TopResidue(p: nat, bigP: nat, q: nat, m: nat)
    requires bigP >= 1 && q >= 1 && m == bigP * q && m - bigP <= p < m
    ensures p % bigP == p - (m - bigP)
  {
    var t := p - (m - bigP);
    assert p == bigP * (q - 1) + t;
    DivModSplit(t, bigP, q - 1);
  }

  /** The sign-extended words of a width are exactly the non-negative values
      below 2^(nbits-1) and the negative patterns at or above
      2^128 - 2^(nbits-1). */
  lemma SignExtendedRange(p: U128, nbits: nat)
    requires 1 <= nbits <= 128
    ensures IsSignExtended(p, nbits) <==> p < Pow2(nbits - 1) || p >= MODULUS - Pow2(nbits - 1)
  {
    WidthFacts(nbits);
    SignBit(p, nbits);
    SignExtendValue(p, nbits);
    if p < Pow2(nbits - 1) {
      SmallLowBits(p, nbits);
    } else if p >= MODULUS - Pow2(nbits - 1) {
      NegativeLowBits(p, nbits);
    }
  }

  /** Two sign-extended words with the same low bits are equal. */
  lemma SignExtendedByLowBits(a: U128, b: U128, nbits: nat)
    requires 1 <= nbits <= 128
    requires IsSignExtended(a, nbits) && IsSignExtended(b, nbits)
    requires a % Pow2(nbits) == b % Pow2(nbits)
    ensures a == b
  {
    SignBit(a, nbits);
    SignBit(b, nbits);
    SignExtendValue(a, nbits);
    SignExtendValue(b, nbits);
  }

  // ---------------------------------------------------------------------------
  // twoscomp
  // ---------------------------------------------------------------------------

  /** `twoscomp(n)`: `(!n).wrapping_add(1)`, the additive inverse of `n`
      modulo 2^128. */
  function TwosComp(n: U128): (r: U128)
    ensures (n + r) % MODULUS == 0
  {
    WrappingAdd(Not(n), 1)
  }

  /** The inverse modulo 2^128 is unique, so it is also `0 - n` with
      wrap-around, which is how `parse_num` negates. */
  lemma TwosCompUnique(n: U128, x: U128)
    requires (n + x) % MODULUS == 0
    ensures x == TwosComp(n) && x == WrappingSub(0, n)
  {
    if n + x < MODULUS {
      DivModSplit(n + x, MODULUS, 0);
      DivModSplit(0, MODULUS, 1);
    } else {
      DivModSplit(n + x - MODULUS, MODULUS, 1);
      DivModSplit(MODULUS - n, MODULUS, 0);
      DivModUnique(0 - n, MODULUS, -1, MODULUS - n);
    }
  }

  /** `twoscomp` and the `0u128.wrapping_sub` of `parse_num` negate alike. */
  lemma WrappingNegation(n: U128)
    ensures WrappingSub(0, n) == TwosComp(n)
  {
    TwosCompUnique(n, TwosComp(n));
  }

  lemma TwosCompValue(n: U128)
    ensures TwosComp(n) == (MODULUS - n) % MODULUS
  {
  }

  /** Any other word is negated to 2^128 minus itself. */
  lemma TwosCompNonZero(n: U128)
    requires n != 0
    ensures TwosComp(n) == MODULUS - n
  {
    TwosCompUnique(n, MODULUS - n);
  }

  /** Zero is its own complement: `-0` is `0`. */
  lemma TwosCompZero()
    ensures TwosComp(0) == 0
  {
  }

  /** Complementing twice gives the word back. */
  lemma TwosCompInvolution(n: U128)
    ensures TwosComp(TwosComp(n)) == n
  {
    var r := TwosComp(n);
    assert (r + n) % MODULUS == 0;
    TwosCompUnique(r, n);
  }

  // ---------------------------------------------------------------------------
  // The range check and the complement step of `main`
  // ---------------------------------------------------------------------------

  /** `main`'s range check: a word is refused when it differs from its sign
      extension and also has a bit set at or above `nbits`; otherwise the
      sign extension is kept. At width 128 the sign extension is the word
      itself, so the shift `num >> 128` is never reached. */
  function Normalize(num: U128, nbits: nat): (r: Option<U128>)
    requires ValidWidth(nbits)
    ensures r.Some? ==> IsSignExtended(r.value, nbits)
    ensures r.Some? ==> r.value % Pow2(nbits) == num % Pow2(nbits)
  {
    var senum := SignExtend(num, nbits);
    SignExtendFullWidth(num);
    SignExtendIdempotent(num, nbits);
    SignExtendLowBits(num, nbits);
    if num != senum && ShiftRight(num, nbits) != 0 then None else Some(senum)
  }

  /** A word is accepted exactly when it fits `nbits` bits as an unsigned
      value or is the sign extension of a negative `nbits`-bit pattern. */
  lemma NormalizeAccepts(num: U128, nbits: nat)
    requires ValidWidth(nbits)
    ensures Normalize(num, nbits).Some? <==> num < Pow2(nbits) || num >= MODULUS - Pow2(nbits - 1)
  {
    Pow2Modulus();
    SignExtendedRange(num, nbits);
    SignBit(num, nbits);
    if nbits < 128 {
      DivZero(num, Pow2(nbits));
    }
  }

  /** A canonical word passes the check unchanged. */
  lemma NormalizeCanonical(p: U128, nbits: nat)
    requires ValidWidth(nbits) && IsSignExtended(p, nbits)
    ensures Normalize(p, nbits) == Some(p)
  {
  }

  /** Nothing is refused at width 128. */
  lemma NormalizeFullWidth(num: U128)
    ensures ValidWidth(128)
    ensures Normalize(num, 128) == Some(num)
  {
    ValidWidths(128);
    SignExtendFullWidth(num);
  }

  /** `signextend(twoscomp(num), nbits)`: the complement re-canonicalised
      to the width. */
  function Complement(p: U128, nbits: nat): (r: U128)
    requires 1 <= nbits <= 128
  {
    SignExtend(TwosComp(p), nbits)
  }

  /** The complement step always yields a canonical word. */
  lemma ComplementCanonical(p: U128, nbits: nat)
    requires 1 <= nbits <= 128
    ensures IsSignExtended(Complement(p, nbits), nbits)
  {
    SignExtendIdempotent(TwosComp(p), nbits);
  }

  /** `-c` modulo 2^nbits: the negation of an `nbits`-bit pattern. */
  function Negated(c: nat, nbits: nat): (r: nat)
    ensures r < Pow2(nbits)
  {
    (Pow2(nbits) - c) % Pow2(nbits)
  }

  /** Negation modulo `m` seen modulo a divisor `bigP` of `m`. */
  lemma NegMod(p: nat, bigP: nat, q: nat, m: nat)
    requires bigP >= 1 && q >= 1 && m == bigP * q && p < m
    ensures ((m - p) % m) % bigP == (bigP - p % bigP) % bigP
  {
    ModMod(bigP * q - p, bigP, q);
    var a, c := p / bigP, p % bigP;
    DivModIdentity(p, bigP);
    MulMonotone(bigP, q, a);
    if c == 0 {
      assert bigP * q - p == bigP * (q - a) + 0;
      DivModSplit(0, bigP, q - a);
      DivModSplit(0, bigP, 1);
    } else {
      assert bigP * q - p == bigP * (q - a - 1) + (bigP - c);
      DivModSplit(bigP - c, bigP, q - a - 1);
      DivModSplit(bigP - c, bigP, 0);
    }
  }

  /** The low `nbits` bits of the complement are 2^nbits minus the low bits
      of `p`, modulo 2^nbits. */
  lemma ComplementLowBits(p: U128, nbits: nat)
    requires 1 <= nbits <= 128
    ensures Complement(p, nbits) % Pow2(nbits) == Negated(p % Pow2(nbits), nbits)
  {
    SignExtendLowBits(TwosComp(p), nbits);
    TwosCompLowBits(p, nbits);
  }

  /** Modulo 2^nbits, `twoscomp` is negation. */
  lemma TwosCompLowBits(p: U128, nbits: nat)
    requires 1 <= nbits <= 128
    ensures TwosComp(p) % Pow2(nbits) == Negated(p % Pow2(nbits), nbits)
  {
    assert TwosComp(p) == (MODULUS - p) % MODULUS by { TwosCompValue(p); }
    assert ((MODULUS - p) % MODULUS) % Pow2(nbits) == (Pow2(nbits) - p % Pow2(nbits)) % Pow2(nbits) by {
      assert MODULUS == Pow2(nbits) * Pow2(128 - nbits) by {
        Pow2Modulus();
        Pow2Divides(nbits, 128);
      }
      NegMod(p, Pow2(nbits), Pow2(128 - nbits), MODULUS);
    }
  }

  /** Negating an `nbits`-bit pattern twice gives it back. */
  lemma NegatedTwice(c: nat, nbits: nat)
    requires c < Pow2(nbits)
    ensures Negated(Negated(c, nbits), nbits) == c
  {
    if c == 0 {
      DivModSplit(0, Pow2(nbits), 1);
      DivModSplit(0, Pow2(nbits), 0);
    } else {
      DivModSplit(Pow2(nbits) - c, Pow2(nbits), 0);
      DivModSplit(c, Pow2(nbits), 0);
    }
  }

  /** Applying the complement step twice to a canonical word returns it. */
  lemma ComplementTwice(p: U128, nbits: nat)
    requires 1 <= nbits <= 128 && IsSignExtended(p, nbits)
    ensures Complement(Complement(p, nbits), nbits) == p
  {
    var c1 := Complement(p, nbits);
    ComplementLowBits(p, nbits);
    ComplementLowBits(c1, nbits);
    NegatedTwice(p % Pow2(nbits), nbits);
    ComplementCanonical(c1, nbits);
    SignExtendedByLowBits(Complement(c1, nbits), p, nbits);
  }

  /** `signextend(1 << (nbits - 1), nbits)`: the most negative value. */
  function MostNegative(nbits: nat): (r: U128)
    requires 1 <= nbits <= 128
  {
    SignExtend(ShiftLeft(1, nbits - 1), nbits)
  }

  lemma MostNegativeValue(nbits: nat)
    requires 1 <= nbits <= 128
    ensures MostNegative(nbits) == MODULUS - Pow2(nbits - 1)
    ensures MostNegative(nbits) % Pow2(nbits) == Pow2(nbits - 1)
  {
    var h := Pow2(nbits - 1);
    assert Pow2(nbits) == 2 * h && h <= HALF by { WidthFacts(nbits); }
    assert ShiftLeft(1, nbits - 1) == h by { DivModSplit(h, MODULUS, 0); }
    assert h % Pow2(nbits) == h by { SmallLowBits(h, nbits); }
    assert Bit(h, nbits - 1) == 1 by { SignBit(h, nbits); }
    assert SignExtend(h, nbits) == h % Pow2(nbits) + (MODULUS - Pow2(nbits)) by {
      SignExtendValue(h, nbits);
    }
    assert SignExtend(h, nbits) % Pow2(nbits) == h % Pow2(nbits) by { SignExtendLowBits(h, nbits); }
  }

  /** The most negative value is canonical, with low bits 2^(nbits-1). */
  lemma MostNegativeBits(nbits: nat)
    requires 1 <= nbits <= 128
    ensures IsSignExtended(MostNegative(nbits), nbits)
    ensures MostNegative(nbits) % Pow2(nbits) == Pow2(nbits - 1)
  {
    MostNegativeValue(nbits);
    SignExtendedRange(MostNegative(nbits), nbits);
  }

  /** The most negative value is its own complement. */
  lemma MostNegativeComplement(nbits: nat)
    requires 1 <= nbits <= 128
    ensures Complement(MostNegative(nbits), nbits) == MostNegative(nbits)
  {
    var mn := MostNegative(nbits);
    MostNegativeBits(nbits);
    WidthFacts(nbits);
    ComplementLowBits(mn, nbits);
    NegatedFixed(mn % Pow2(nbits), nbits);
    ComplementCanonical(mn, nbits);
    SignExtendedByLowBits(Complement(mn, nbits), mn, nbits);
  }

  /** The most negative value is 2^128 - 2^(nbits-1), reads as
      -2^(nbits-1), and is its own complement: it has no positive
      counterpart. */
  lemma MostNegativeFixedPoint(nbits: nat)
    requires 1 <= nbits <= 128
    ensures MostNegative(nbits) == MODULUS - Pow2(nbits - 1)
    ensures Complement(MostNegative(nbits), nbits) == MostNegative(nbits)
    ensures AsI128(MostNegative(nbits)) == -(Pow2(nbits - 1) as int)
  {
    var mn, h := MostNegative(nbits), Pow2(nbits - 1);
    assert mn == MODULUS - h by { MostNegativeValue(nbits); }
    assert h <= HALF by { WidthFacts(nbits); }
    MostNegativeComplement(nbits);
  }

  /** Negation leaves an `nbits`-bit pattern alone exactly when it is 0 or
      2^(nbits-1). */
  lemma NegatedFixed(c: nat, nbits: nat)
    requires 1 <= nbits && c < Pow2(nbits)
    ensures Negated(c, nbits) == c <==> c == 0 || c == Pow2(nbits - 1)
  {
    assert Pow2(nbits) == 2 * Pow2(nbits - 1);
    if c == 0 {
      DivModSplit(0, Pow2(nbits), 1);
    } else {
      DivModSplit(Pow2(nbits) - c, Pow2(nbits), 0);
    }
  }

  /** Only zero and the most negative value are their own complements. */
  lemma ComplementFixedPoints(p: U128, nbits: nat)
    requires 1 <= nbits <= 128 && IsSignExtended(p, nbits)
    ensures Complement(p, nbits) == p <==> p == 0 || p == MostNegative(nbits)
  {
    var bigP, h, mn := Pow2(nbits), Pow2(nbits - 1), MostNegative(nbits);
    var c, r := Complement(p, nbits), p % bigP;
    assert c % bigP == Negated(r, nbits) by { ComplementLowBits(p, nbits); }
    assert IsSignExtended(c, nbits) by { ComplementCanonical(p, nbits); }
    assert bigP == 2 * h by { WidthFacts(nbits); }
    assert Negated(r, nbits) == r <==> r == 0 || r == h by { NegatedFixed(r, nbits); }
    assert IsSignExtended(0, nbits) && 0 % bigP == 0 by {
      SignExtendedRange(0, nbits);
      DivModSplit(0, bigP, 0);
    }
    assert IsSignExtended(mn, nbits) && mn % bigP == h by { MostNegativeBits(nbits); }
    if r == 0 {
      assert p == 0 by { SignExtendedByLowBits(p, 0, nbits); }
      assert c == p by { SignExtendedByLowBits(c, p, nbits); }
    } else if r == h {
      assert p == mn by { SignExtendedByLowBits(p, mn, nbits); }
      assert c == p by { SignExtendedByLowBits(c, p, nbits); }
    }
  }

  // ---------------------------------------------------------------------------
  // Reading a canonical word as i128
  // ---------------------------------------------------------------------------

  /** The value of the `nbits`-bit two's-complement pattern `v`. */
  function Signed(v: nat, nbits: nat): (r: int)
    requires 1 <= nbits && v < Pow2(nbits)
    ensures -(Pow2(nbits - 1) as int) <= r < Pow2(nbits - 1)
    ensures r == v || r == v - Pow2(nbits)
  {
    if v < Pow2(nbits - 1) then v else v - Pow2(nbits)
  }

  /** `p as i128` of a canonical word is the two's-complement value of its
      low `nbits` bits, and so lies in [-2^(nbits-1), 2^(nbits-1) - 1]. */
  lemma AsI128SignExtended(p: U128, nbits: nat)
    requires 1 <= nbits <= 128 && IsSignExtended(p, nbits)
    ensures AsI128(p) == Signed(p % Pow2(nbits), nbits)
    ensures -(Pow2(nbits - 1) as int) <= AsI128(p) < Pow2(nbits - 1)
  {
    WidthFacts(nbits);
    SignExtendedRange(p, nbits);
    if p < Pow2(nbits - 1) {
      SmallLowBits(p, nbits);
    } else {
      NegativeLowBits(p, nbits);
    }
  }

  /** Signed value of a negated residue. */
  lemma SignedNeg(c: nat, nbits: nat)
    requires 1 <= nbits && c < Pow2(nbits) && c != Pow2(nbits - 1)
    ensures Signed(Negated(c, nbits), nbits) == -Signed(c, nbits)
  {
    var bigP := Pow2(nbits);
    assert bigP == 2 * Pow2(nbits - 1);
    if c == 0 {
      DivModSplit(0, bigP, 1);
    } else {
      DivModSplit(bigP - c, bigP, 0);
    }
  }

  /** The complement's decimal value is the negation of the word's, except
      for the most negative value, which stays put. */
  lemma ComplementNegates(p: U128, nbits: nat)
    requires 1 <= nbits <= 128 && IsSignExtended(p, nbits) && p != MostNegative(nbits)
    ensures AsI128(Complement(p, nbits)) == -AsI128(p)
  {
    var bigP, h, mn := Pow2(nbits), Pow2(nbits - 1), MostNegative(nbits);
    var c, r := Complement(p, nbits), p % bigP;
    assert c % bigP == Negated(r, nbits) by { ComplementLowBits(p, nbits); }
    assert IsSignExtended(c, nbits) by { ComplementCanonical(p, nbits); }
    assert AsI128(p) == Signed(r, nbits) by { AsI128SignExtended(p, nbits); }
    assert AsI128(c) == Signed(c % bigP, nbits) by { AsI128SignExtended(c, nbits); }
    assert r != h by {
      MostNegativeBits(nbits);
      if r == h {
        SignExtendedByLowBits(p, mn, nbits);
      }
    }
    assert Signed(Negated(r, nbits), nbits) == -Signed(r, nbits) by { SignedNeg(r, nbits); }
  }

  // ---------------------------------------------------------------------------
  // The whole conversion
  // ---------------------------------------------------------------------------

  /** What `main` prints: the canonical word and its complement, each as
      an `i128` and masked to `nbits` bits for the hex and binary columns. */
  datatype Conversion = Conversion(
    num: U128,
    n2c: U128,
    snum: int,
    sn2c: int,
    shownNum: U128,
    shownN2c: U128)

  /** Lines 80-89 of `main`, once the word is canonical: complement,
      reinterpretation as `i128`, display masks. */
  function Converted(senum: U128, nbits: nat): (r: Conversion)
    requires ValidWidth(nbits)
  {
    var n2c := Complement(senum, nbits);
    var mask := Mask(nbits);
    Conversion(senum, n2c, AsI128(senum), AsI128(n2c), And(senum, mask), And(n2c, mask))
  }

  /** Lines 75-89 of `main`: the range check, then the conversion of the
      canonical word. `None` is the out-of-range exit. */
  function Convert(num: U128, nbits: nat): (r: Option<Conversion>)
    requires ValidWidth(nbits)
  {
    match Normalize(num, nbits)
    case None => None
    case Some(senum) => Some(Converted(senum, nbits))
  }

  /** For a canonical word: the masks show its low bits and those of its
      negation modulo 2^nbits, the first `i128` is the signed value of the
      low bits, and the second is its negation except at the most negative
      value, which is shown unchanged. */
  lemma ConvertedCorrect(p: U128, nbits: nat)
    requires ValidWidth(nbits) && IsSignExtended(p, nbits)
    ensures Converted(p, nbits).num == p
    ensures Converted(p, nbits).shownNum == p % Pow2(nbits)
    ensures Converted(p, nbits).shownN2c == Negated(p % Pow2(nbits), nbits)
    ensures Converted(p, nbits).snum == Signed(p % Pow2(nbits), nbits)
    ensures Converted(p, nbits).sn2c
      == if p == MostNegative(nbits) then Converted(p, nbits).snum else -Converted(p, nbits).snum
    ensures Converted(p, nbits).snum == -(Pow2(nbits - 1) as int) <==> p == MostNegative(nbits)
  {
    MaskLowBits(p, nbits);
    MaskLowBits(Complement(p, nbits), nbits);
    ComplementLowBits(p, nbits);
    AsI128SignExtended(p, nbits);
    MostNegativeFixedPoint(nbits);
    if p != MostNegative(nbits) {
      ComplementNegates(p, nbits);
      if AsI128(p) == AsI128(MostNegative(nbits)) {
        AsI128Injective(p, MostNegative(nbits));
      }
    }
  }

  /** The conversion is accepted exactly for words that fit the width, as
      an unsigned or as a sign-extended negative `nbits`-bit value. */
  lemma ConvertAccepts(num: U128, nbits: nat)
    requires ValidWidth(nbits)
    ensures Convert(num, nbits).Some? <==> num < Pow2(nbits) || num >= MODULUS - Pow2(nbits - 1)
  {
    NormalizeAccepts(num, nbits);
  }

  /** An accepted conversion shows the low bits of the word and of its
      negation modulo 2^nbits, the word's signed value, and the negation of
      that value except at the most negative value. */
  lemma ConvertCorrect(num: U128, nbits: nat)
    requires ValidWidth(nbits) && Convert(num, nbits).Some?
    ensures Convert(num, nbits).value.shownNum == num % Pow2(nbits)
    ensures Convert(num, nbits).value.shownN2c == Negated(num % Pow2(nbits), nbits)
    ensures Convert(num, nbits).value.snum == Signed(num % Pow2(nbits), nbits)
    ensures var c := Convert(num, nbits).value;
      if c.snum == -(Pow2(nbits - 1) as int) then c.sn2c == c.snum else c.sn2c == -c.snum
  {
    var senum := Normalize(num, nbits).value;
    assert Convert(num, nbits).value == Converted(senum, nbits);
    assert senum % Pow2(nbits) == num % Pow2(nbits);
    ConvertedCorrect(senum, nbits);
  }

  /** `as i128` loses nothing. */
  lemma AsI128Injective(a: U128, b: U128)
    requires AsI128(a) == AsI128(b)
    ensures a == b
  {
  }

  datatype Failure = MalformedLiteral | OutOfRange

  datatype Result<T> = Ok(value: T) | Err(failure: Failure)

  /** A literal and a width, through `parse_num` and the conversion; the two
      failures are `main`'s two error exits after the width checks. */
  function Run(literal: string, nbits: nat): (r: Result<Conversion>)
    requires ValidWidth(nbits)
  {
    match ParseNum(literal)
    case None => Err(MalformedLiteral)
    case Some(num) =>
      match Convert(num, nbits)
      case None => Err(OutOfRange)
      case Some(c) => Ok(c)
  }

  /** The outcome of a run: a literal `parse_num` refuses is malformed, a
      parsed word outside the width is out of range, and an accepted one
      shows the low bits of the word and of its negation, the signed value
      and its negation (the most negative value staying put). */
  lemma RunOutcome(literal: string, nbits: nat)
    requires ValidWidth(nbits)
    ensures Run(literal, nbits) == Err(MalformedLiteral) <==> ParseNum(literal).None?
    ensures Run(literal, nbits) == Err(OutOfRange)
      <==> ParseNum(literal).Some? && !(ParseNum(literal).value < Pow2(nbits)
                                        || ParseNum(literal).value >= MODULUS - Pow2(nbits - 1))
    ensures Run(literal, nbits).Ok? ==> ParseNum(literal).Some?
    ensures Run(literal, nbits).Ok? ==>
      var num, c := ParseNum(literal).value, Run(literal, nbits).value;
      && c.shownNum == num % Pow2(nbits)
      && c.shownN2c == Negated(num % Pow2(nbits), nbits)
      && c.snum == Signed(num % Pow2(nbits), nbits)
      && c.sn2c == (if c.snum == -(Pow2(nbits - 1) as int) then c.snum else -c.snum)
  {
    match ParseNum(literal)
    case None =>
    case Some(num) =>
      ConvertAccepts(num, nbits);
      if Convert(num, nbits).Some? {
        ConvertCorrect(num, nbits);
      }
  }
}
