# twoscomp in Dafny

`twoscomp` is a small command-line tool that shows an integer literal as a
two's-complement word of a chosen width (4, 8, 16, 32, 64 or 128 bits),
together with its negation. It prints each word masked to the width, and
also prints both as signed decimals.

This project models the arithmetic core of `src/main.rs`:

- `parse_num` turns a literal into a `u128`. It strips one leading `-`, then
  picks a radix from the prefix: a bare `0` is decimal, `0x`/`0X` hex,
  `0t`/`0T` decimal, `0b`/`0B` binary, and any other leading `0` octal, with
  the `0` kept. It parses the digits with `u128::from_str_radix`. When the
  `-` was there it negates the result modulo 2^128.
- `signextend` copies bit `nbits - 1` into every bit above it.
- `twoscomp` computes `!n + 1`, wrapping.
- `main` then range-checks the word against the width. It sign-extends the
  word, complements it and sign-extends again, reads both words back as
  `i128`, and masks both to the width for display.

The model works on values throughout, as the source does. `u128` is a natural
below 2^128 (`Word.U128`). Each operator is written out with its wrap-around
or truncation made explicit: `&`, `|`, `!`, `>>`, `<<`, `wrapping_add`,
`wrapping_sub` and `as i128`. `signextend` keeps the source's mask
expressions, and `Converter.SignExtendValue` proves their arithmetic value.

Modules:

- `Word`: the 128-bit word, its operators, and what they do bit by bit.
- `Radix`: `u128::from_str_radix` and its inverse, which writes a number
  out in a radix.
- `Converter`: the width checks, `parse_num`, `signextend` and `twoscomp`,
  and the range-check, complement, `i128` and display steps of `main`
  (`Convert`, and `Run` for a whole run).
- `Literals`: literals written out from a value in each notation. Parsing
  them gives the value back, negated modulo 2^128 after a `-`.
- `Scenarios`: whole runs characterised by the value and sign written,
  plus particular literals worked through.

Some behaviour of the code worth knowing:

- Rust's unsigned `from_str_radix` accepts one leading `+`, so `+5` and
  `0x+f` parse. The model includes this.
- A `-` negates modulo 2^128 before the range check. So a huge negative
  literal can wrap into range: `-(2^128 - 1)` is accepted at every width
  and shown as 1 (`Scenarios.RunWrapsAround`).
- The most negative value of a width, `-2^(nbits-1)`, is its own
  complement.

## Model

| member | source | states |
|---|---|---|
| Word.And | src/main.rs:41 | `a & b`, bit by bit; the result is at most either operand, and `Word.AndLowMask` gives its value against a low mask |
| Word.Or | src/main.rs:39 | `a` or-ed with `b`, bit by bit; the result is at least either operand and at most their sum, and `Word.OrHighMask` gives its value against a high mask |
| Word.Not | src/main.rs:46 | `!n`; `Word.NotFlipsBits` states that it flips each of the 128 bits |
| Word.ShiftRight | src/main.rs:36-37 | `n >> s` for a shift below 128, a `u128` again; `Converter.Mask` and `Converter.MaskedBits` give its use in `signextend` |
| Word.WrappingAdd | src/main.rs:47 | `wrapping_add`; `Word.WrappingCarry` states that the carry out of bit 127 is dropped |
| Word.WrappingSub | src/main.rs:32 | `wrapping_sub`; `Word.WrappingCarry` states that a borrow wraps to 2^128 more, and `Converter.WrappingNegation` that `0 - m` is `twoscomp(m)` |
| Word.WrappingCarry | src/main.rs:47 | the wrapping sum is the exact sum, less 2^128 when it reaches 2^128; the wrapping difference is the exact one, plus 2^128 when it is negative |
| Word.AndLowMask | src/main.rs:41 | `n & (2^k - 1)` keeps exactly the low k bits: it equals `n mod 2^k` |
| Word.OrHighMask | src/main.rs:39 | or-ing a word below 2^w with the ones in bits k..w-1 gives its low k bits plus 2^w - 2^k |
| Word.NotFlipsBits | src/main.rs:46 | `!n` flips every one of the 128 bits of `n` |
| Word.AsI128 | src/main.rs:84-85 | `n as i128` lies in [-2^127, 2^127) and is congruent to `n` modulo 2^128 |
| Radix.ToDigit | src/main.rs:31 | one character's digit value, always below the radix; `Radix.ToDigitUpper` states that upper and lower case letters count alike |
| Radix.ToDigitUpper | src/main.rs:31 | an upper-case letter `A`.. reads as the digit 10.., the same value as its lower-case form |
| Radix.DigitsValue | src/main.rs:31 | the value of a digit string, most significant first; `Radix.ToDigitsRoundTrip` states it inverts the digit writer |
| Radix.FromStrRadix | src/main.rs:31 | `u128::from_str_radix` with its errors folded into `None`; `Radix.FromStrRadixRoundTrip`, `Radix.FromStrRadixOverflow`, `Radix.PlusSign` and `Radix.MinusRefused` state what it accepts |
| Radix.FromStrRadixRoundTrip | src/main.rs:31 | `from_str_radix` reads back every `u128` written out in any radix from 2 to 36 |
| Radix.FromStrRadixOverflow | src/main.rs:31 | digits whose value is 2^128 or more are refused |
| Radix.PlusSign | src/main.rs:31 | one leading `+` is accepted and changes nothing |
| Radix.LeadingZero | src/main.rs:28 | a leading `0` changes neither the validity nor the value of a digit string |
| Radix.LeadingZeroDigits | src/main.rs:28-31 | `from_str_radix` gives the same result with or without a leading `0` before a digit |
| Radix.MinusRefused | src/main.rs:31 | an unsigned parse refuses a `-` |
| Converter.ValidWidth | src/main.rs:61-68 | the two width checks of `main`; `Converter.ValidWidths` lists exactly the widths that pass |
| Converter.ValidWidths | src/main.rs:61-68 | a width passes both checks exactly when it is 4, 8, 16, 32, 64 or 128 |
| Converter.Dispatch | src/main.rs:23-30 | the chosen radix is 2, 8, 10 or 16, and the digits parsed are a suffix of the literal |
| Converter.ParseNum | src/main.rs:21-33 | `parse_num`, arm by arm; `Literals.ParseLiteral` and `Literals.ParseNegative` state what it returns for every literal and for a `-` in front, `Scenarios.NoDigits` and `Scenarios.EmptyDigits` that text with no digits is refused |
| Converter.Mask | src/main.rs:36 | `!0u128 >> (128 - nbits)` is 2^nbits - 1 |
| Converter.MaskedBits | src/main.rs:37-42 | the sign test reads bit nbits-1; `n & mask` is `n mod 2^nbits`; `n` or-ed with `!mask` is that plus 2^128 - 2^nbits |
| Converter.SignExtend | src/main.rs:35-43 | `signextend`, with the source's mask expressions; `Converter.SignExtendValue` gives its value and `Converter.SignExtendBits` its bits |
| Converter.SignExtendValue | src/main.rs:35-43 | `signextend(n, nbits)` is `n mod 2^nbits`, plus 2^128 - 2^nbits when bit nbits-1 is set |
| Converter.SignExtendLowBits | src/main.rs:35-43 | the low nbits bits survive; the bits above are all ones or all zeros, following the sign bit |
| Converter.SignExtendBits | src/main.rs:35-43 | every bit below nbits is kept, and every bit from nbits to 127 equals bit nbits-1 |
| Converter.SignExtendIdempotent | src/main.rs:35-43 | sign-extending twice is sign-extending once |
| Converter.SignExtendFullWidth | src/main.rs:35-43 | at width 128 sign extension is the identity |
| Converter.SignExtendedRange | src/main.rs:35-43 | a word is its own sign extension exactly when it is below 2^(nbits-1) or at least 2^128 - 2^(nbits-1) |
| Converter.SignExtendedByLowBits | src/main.rs:35-43 | two sign-extended words with the same low nbits bits are equal |
| Converter.TwosComp | src/main.rs:45-48 | `twoscomp(n)` is an additive inverse: `n + twoscomp(n)` is 0 modulo 2^128 |
| Converter.TwosCompUnique | src/main.rs:45-48 | any additive inverse of `n` modulo 2^128 is `twoscomp(n)` and is `0 - n` with wrap-around |
| Converter.TwosCompValue | src/main.rs:45-48 | `twoscomp(n)` is (2^128 - n) mod 2^128 |
| Converter.TwosCompNonZero | src/main.rs:45-48 | for a nonzero word `twoscomp(n)` is 2^128 - n |
| Converter.TwosCompZero | src/main.rs:45-48 | `twoscomp(0)` is 0: zero has a single representation |
| Converter.TwosCompInvolution | src/main.rs:45-48 | `twoscomp(twoscomp(n)) == n` |
| Converter.WrappingNegation | src/main.rs:32 | `0u128.wrapping_sub(m)` in `parse_num` negates exactly as `twoscomp` does |
| Converter.Normalize | src/main.rs:75-80 | an accepted word comes out sign-extended, with its low nbits bits unchanged |
| Converter.NormalizeAccepts | src/main.rs:75-79 | the range check accepts exactly the words below 2^nbits and those at least 2^128 - 2^(nbits-1) |
| Converter.NormalizeCanonical | src/main.rs:75-80 | a word that is already sign-extended passes unchanged |
| Converter.NormalizeFullWidth | src/main.rs:75-80 | at width 128 every word passes unchanged, so `num >> 128` is never evaluated |
| Converter.Complement | src/main.rs:81 | `signextend(twoscomp(num), nbits)`; `Converter.ComplementCanonical`, `Converter.ComplementLowBits` and `Converter.ComplementTwice` state that it is sign-extended, negates the low bits and undoes itself |
| Converter.ComplementCanonical | src/main.rs:81 | `signextend(twoscomp(num), nbits)` is always sign-extended |
| Converter.TwosCompLowBits | src/main.rs:45-48 | modulo 2^nbits, `twoscomp` is negation of the low nbits bits |
| Converter.ComplementLowBits | src/main.rs:81 | the complement's low nbits bits are (2^nbits - low bits of num) mod 2^nbits |
| Converter.ComplementTwice | src/main.rs:81 | applying the complement step twice to a sign-extended word gives it back |
| Converter.MostNegative | src/main.rs:16-17 | the most negative pattern of a width, sign-extended; `signextend(1 << (nbits-1), nbits)`, with the shift written as `Word.ShiftLeft`; `Converter.MostNegativeValue` gives its value and `Converter.MostNegativeComplement` that it is its own complement |
| Converter.MostNegativeValue | src/main.rs:16-17 | `signextend(1 << (nbits-1), nbits)` is 2^128 - 2^(nbits-1), with low bits 2^(nbits-1) |
| Converter.MostNegativeBits | src/main.rs:16-17 | the most negative value is sign-extended |
| Converter.MostNegativeComplement | src/main.rs:16-17 | the most negative value is its own complement |
| Converter.MostNegativeFixedPoint | src/main.rs:16-17 | the most negative value reads as -2^(nbits-1) and has no positive complement |
| Converter.NegatedFixed | src/main.rs:81 | negation modulo 2^nbits fixes a pattern exactly when it is 0 or 2^(nbits-1) |
| Converter.ComplementFixedPoints | src/main.rs:81 | exactly zero and the most negative value are their own complements |
| Converter.Signed | src/main.rs:84 | the two's-complement value of an nbits-bit pattern lies in [-2^(nbits-1), 2^(nbits-1)) and differs from it by 0 or 2^nbits |
| Converter.AsI128SignExtended | src/main.rs:84 | `p as i128` of a sign-extended word is the nbits-bit two's-complement value of its low bits |
| Converter.SignedNeg | src/main.rs:81-85 | negating a pattern other than 2^(nbits-1) negates its signed value |
| Converter.ComplementNegates | src/main.rs:81-85 | the complement's `i128` is the negation of the word's, except at the most negative value |
| Converter.Converted | src/main.rs:80-89 | the six printed quantities of a canonical word; `Converter.ConvertedCorrect` gives each of them |
| Converter.Convert | src/main.rs:75-89 | the range check followed by the conversion; `Converter.ConvertAccepts` and `Converter.ConvertCorrect` state when it succeeds and what it shows |
| Converter.ConvertedCorrect | src/main.rs:80-89 | for a sign-extended word: the masked outputs are its low bits and their negation, `snum` is their signed value, `sn2c` is `-snum` except at the most negative value, and `snum` is the minimum exactly there |
| Converter.ConvertAccepts | src/main.rs:75-79 | a conversion is produced exactly for words below 2^nbits or at least 2^128 - 2^(nbits-1) |
| Converter.ConvertCorrect | src/main.rs:75-89 | an accepted word is shown by its low bits and their negation, its signed value and the negation of that value, the minimum staying put |
| Converter.AsI128Injective | src/main.rs:84-85 | `as i128` loses nothing |
| Converter.Run | src/main.rs:70-89 | parse, range check and conversion, with the two exits as errors; `Converter.RunOutcome` states each outcome |
| Converter.RunOutcome | src/main.rs:70-89 | a literal `parse_num` refuses is malformed; a parsed word outside the width is out of range; otherwise the run shows what `ConvertCorrect` states |
| Literals.DecimalDispatch | src/main.rs:23-30 | text not starting with `0` is parsed in decimal as it stands |
| Literals.OctalDispatch | src/main.rs:28 | a `0` followed by anything other than `x`, `X`, `t`, `T`, `b` or `B` selects octal and keeps the `0` among the digits |
| Literals.PrefixDispatch | src/main.rs:25-27 | `0x`/`0X`, `0t`/`0T` and `0b`/`0B` select radix 16, 10 and 2 and hand on exactly the text after the prefix |
| Literals.DispatchLiteral | src/main.rs:23-30 | each prefix selects its radix, and the digits handed on are the written ones (the `0` kept for octal) |
| Literals.DigitsOf | src/main.rs:31 | `from_str_radix` on the digits of `v` gives `v` when it is below 2^128 and an error otherwise |
| Literals.DigitsOfOctal | src/main.rs:28-31 | the same holds for octal digits behind the leading `0` |
| Literals.DigitsOfLiteral | src/main.rs:28-31 | the digits of a written literal parse to its value when it is below 2^128, and fail otherwise |
| Literals.ParseLiteral | src/main.rs:21-33 | `parse_num` of a `u128` written in any notation gives it back, negated modulo 2^128 after a `-` |
| Literals.ParseLiteralOverflow | src/main.rs:31 | a literal of 2^128 or more is refused, with or without a `-` |
| Literals.ParseNegative | src/main.rs:22-32 | a leading `-` negates modulo 2^128 what the rest parses to, and fails exactly when that fails |
| Literals.NegativeZero | src/main.rs:22-32 | `-0` and `0` both parse to 0 |
| Scenarios.Widths | src/main.rs:61-68 | 4, 8 and 128 are valid widths; 2, 6, 12 and 256 are not |
| Scenarios.Unsigned | src/main.rs:22-31 | unfolds `ParseNum` for a literal without `-`: it goes straight to the prefix dispatch and `from_str_radix` |
| Scenarios.NoDigits | src/main.rs:22-31 | the empty literal and a lone `-` are refused |
| Scenarios.EmptyDigits | src/main.rs:25-31 | a `0x`, `0X`, `0t`, `0T`, `0b` or `0B` prefix with no digits after it is refused |
| Scenarios.OctalLiteral | src/main.rs:28-31 | a leading `0` followed by anything but a prefix letter or a sign makes the whole literal octal, so `010` is eight |
| Scenarios.OctalArmRefused | src/main.rs:28-31 | a leading `0` followed by a character that is neither a prefix letter nor an octal digit (`0o17`, `0+5`, `0_1`) is refused |
| Scenarios.UpperCaseDigits | src/main.rs:25-31 | `0xFB` parses to 251: hex digit letters are read in upper case too |
| Scenarios.UpperHexDigits | src/main.rs:31 | `from_str_radix("FB", 16)` is 251 |
| Scenarios.MinusSign | src/main.rs:22-32 | unfolds `ParseNum` for a literal starting with `-`: it is parsed without the `-` and negated |
| Scenarios.DoubleMinus | src/main.rs:22-31 | only one `-` is stripped, so `--` anything is refused |
| Scenarios.RunParsed | src/main.rs:75-89 | a run is determined by the parsed word alone |
| Scenarios.RunNonNegative | src/main.rs:75-89 | an unsigned literal is accepted exactly when its value fits the width or is a sign-extended negative pattern; within the width it is shown as itself, its signed value, and its negation |
| Scenarios.RunNegativeAccepts | src/main.rs:75-79 | `-v` is accepted exactly when v ≤ 2^(nbits-1) or 2^128 - v fits the width |
| Scenarios.RunNegative | src/main.rs:80-89 | `-v` with v ≤ 2^(nbits-1) is shown with low bits 2^nbits - v, as -v, and with complement v (-v at the minimum) |
| Scenarios.RunOverflow | src/main.rs:31 | a literal of 2^128 or more is reported malformed at every width |
| Scenarios.RunWrapsAround | src/main.rs:75-79 | `-(2^128 - 1)` wraps to 1 and is accepted at every width |
| Scenarios.RunFullWidth | src/main.rs:75-79 | at width 128 no literal is out of range |
| Scenarios.SixteenPrefixed | src/main.rs:25-27 | `0x10`, `0X10`, `0t16` and `0b10000` all parse to 16 |
| Scenarios.SixteenUnprefixed | src/main.rs:24-29 | `16` and `020` parse to 16, and a bare `0` is decimal |
| Scenarios.EightIsNotOctal | src/main.rs:28-31 | `08` is refused |
| Scenarios.FiveInEightBits | src/main.rs:75-89 | `5` at width 8 shows 0x05 (5) and complement 0xfb (-5) |
| Scenarios.MinusFiveInEightBits | src/main.rs:75-89 | `-5` at width 8 shows 0xfb (-5) and complement 0x05 (5) |
| Scenarios.MostNegativeInEightBits | src/main.rs:75-89 | `0x80` at width 8 shows -128, and so does its complement |
| Scenarios.EightBitRangeAbove | src/main.rs:75-79 | at width 8, `255` is accepted and `256` is out of range |
| Scenarios.MinusOneTwentyEight | src/main.rs:75-79 | at width 8, `-128` is accepted |
| Scenarios.MinusOneTwentyNine | src/main.rs:75-79 | at width 8, `-129` is out of range |

## Left out

- Argument collection, the usage message, the error messages and
  `process::exit` (src/main.rs:50-55, 71-74, 77-78) are I/O and process
  control. `Run` returns the two failures after the width checks as `Err`
  values instead.
- Parsing the width string with `str::parse::<usize>` (src/main.rs:56-60)
  is left out. The width is a natural number, and the power-of-two and
  4..=128 checks are the predicate `ValidWidth`, which `Convert` and `Run`
  require.
- The `println!` hex and binary rendering with zero padding, and the
  `width = nbits / 4` it uses (src/main.rs:69, 90-91), are output
  formatting. Only the masked values they print are modelled.
- The kinds of `ParseIntError` are folded into `None`.
- Arithmetic-overflow panics are not modelled as outcomes. `ShiftRight` and
  `ShiftLeft` require a shift below 128, and the model proves that every
  shift `main` performs meets it.
- `Literals.ParseLiteral` covers literals whose digits come from
  `Radix.ToDigits`, which writes lower-case letters with no leading zeros.
  Upper-case digits are covered by `Radix.ToDigitUpper` and the example
  `Scenarios.UpperCaseDigits`, not by a round trip.
