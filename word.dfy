/** Rust's `u128` word and the operators the converter applies to it.
    A word is an unbounded natural below 2^128; each operator is written
    out so that its wrap-around or truncation is explicit. */
module Word {

  /** 2^k. */
  function Pow2(k: nat): (r: nat)
    ensures r >= 1
  {
    if k == 0 then 1 else 2 * Pow2(k - 1)
  }

  /** 2^128, one more than `u128::MAX`. */
  const MODULUS: nat := 0x1_0000_0000_0000_0000_0000_0000_0000_0000

  /** 2^127: the first word whose top bit is set. */
  const HALF: nat := MODULUS / 2

  /** Values of Rust's `u128`. */
  type U128 = x: nat | x < MODULUS

  // ---------------------------------------------------------------------------
  // Division and remainder facts (Dafny's `/` and `%` on naturals)
  // ---------------------------------------------------------------------------

  /** Division by `d` is determined by any quotient/remainder pair. */
  lemma DivModUnique(n: int, d: int, q: int, r: int)
    requires d > 0 && 0 <= r < d && n == d * q + r
    ensures n / d == q && n % d == r
  {
    var q', r' := n / d, n % d;
    assert d * q' + r' == d * q + r;
    if q' > q {
      assert d * (q' - q) == d * q' - d * q;
      MulAtLeast(d, q' - q);
    } else if q' < q {
      assert d * (q - q') == d * q - d * q';
      MulAtLeast(d, q - q');
    }
  }

  lemma MulAtLeast(d: int, x: int)
    requires d > 0 && x >= 1
    ensures d * x >= d
  {
    assert d * x == d * (x - 1) + d;
  }

  lemma DivModIdentity(n: nat, d: nat)
    requires d >= 1
    ensures (n / d) * d + n % d == n
  {
    assert n == d * (n / d) + n % d;
  }

  /** `p * h - 1` divided by `p` drops to `h - 1`. */
  lemma AllOnesQuotient(p: nat, h: nat)
    requires p >= 1 && h >= 1
    ensures (p * h - 1) / p == h - 1
  {
    assert p * h - 1 == p * (h - 1) + (p - 1);
    DivModUnique(p * h - 1, p, h - 1, p - 1);
  }

  lemma MulMonotone(p: nat, a: int, b: int)
    ensures a <= b ==> p * a <= p * b
  {
    if a <= b {
      assert p * b == p * a + p * (b - a);
    }
  }

  lemma MulPred(p: int, q: int)
    ensures p * (q - 1) == p * q - p
  {
  }

  /** A quotient is zero exactly when the dividend is below the divisor. */
  lemma DivZero(n: nat, d: nat)
    requires d >= 1
    ensures n / d == 0 <==> n < d
  {
    if n < d {
      DivModUnique(n, d, 0, n);
    } else {
      DivModIdentity(n, d);
      MulAtLeast(d, 1);
    }
  }

  /** Dividing a positive number by at least two makes it smaller. */
  lemma HalfBelow(n: nat, hp: nat)
    requires n < 2 * hp
    ensures n / 2 < hp
  {
    DivModIdentity(n, 2);
  }

  lemma DivShrinks(n: nat, d: nat)
    requires n >= 1 && d >= 2
    ensures n / d < n
  {
    var q := n / d;
    assert n == d * q + n % d;
    if q >= 1 {
      assert d * q == q + (d - 1) * q;
      MulAtLeast(d - 1, q);
    }
  }

  /** A quotient stays below any bound on its dividend. */
  lemma DivBelow(n: nat, d: nat, m: nat)
    requires d >= 1 && n < m
    ensures 0 <= n / d < m
  {
    if d >= 2 && n >= 1 {
      DivShrinks(n, d);
    } else if d == 1 {
      DivModUnique(n, 1, n, 0);
    } else {
      DivModUnique(0, d, 0, 0);
    }
  }

  lemma {:induction false} Pow2Add(a: nat, b: nat)
    ensures Pow2(a + b) == Pow2(a) * Pow2(b)
  {
    if a > 0 {
      Pow2Add(a - 1, b);
      assert Pow2(a + b) == 2 * Pow2(a - 1 + b);
    }
  }

  /** Pow2 is strictly increasing, and a smaller power divides a larger one. */
  lemma Pow2Divides(a: nat, b: nat)
    requires a <= b
    ensures Pow2(b) == Pow2(a) * Pow2(b - a)
    ensures a < b ==> Pow2(b) >= 2 * Pow2(a)
  {
    Pow2Add(a, b - a);
    if a < b {
      assert Pow2(b - a) >= 2 by { assert Pow2(b - a) == 2 * Pow2(b - a - 1); }
      MulMonotone(Pow2(a), 2, Pow2(b - a));
    }
  }

  lemma Pow2Modulus()
    ensures Pow2(128) == MODULUS
  {
    Pow2Of64();
    Pow2Add(64, 64);
  }

  lemma Pow2Of64()
    ensures Pow2(64) == 0x1_0000_0000_0000_0000
  {
    Pow2Of32();
    Pow2Add(32, 32);
  }

  lemma Pow2Of32()
    ensures Pow2(32) == 0x1_0000_0000
  {
    Pow2Of16();
    Pow2Add(16, 16);
  }

  lemma Pow2Of16()
    ensures Pow2(16) == 0x1_0000
  {
    assert Pow2(8) == 256;
    Pow2Add(8, 8);
  }

  /** The low k+1 bits of n are bit 0 followed by the low k bits of n / 2. */
  lemma ModDouble(n: nat, q: nat)
    requires q >= 1
    ensures n % (2 * q) == 2 * ((n / 2) % q) + n % 2
  {
    var h := n / 2;
    DivModUnique(h, q, h / q, h % q);
    assert n == (2 * q) * (h / q) + (2 * (h % q) + n % 2);
    DivModUnique(n, 2 * q, h / q, 2 * (h % q) + n % 2);
  }

  /** Bit `k` of `n` is whether `n mod 2^(k+1)` reaches 2^k. */
  lemma DivModTwo(n: nat, h: nat)
    requires h >= 1
    ensures (n / h) % 2 == (n % (2 * h)) / h
  {
    var q, r := n / (2 * h), n % (2 * h);
    if r < h {
      DivModUnique(n, h, 2 * q, r);
      DivModUnique(r, h, 0, r);
    } else {
      DivModUnique(n, h, 2 * q + 1, r - h);
      DivModUnique(r, h, 1, r - h);
    }
  }

  /** Reducing modulo a multiple first does not change the residue. */
  lemma ModMod(n: nat, a: nat, b: nat)
    requires a >= 1 && b >= 1
    ensures (n % (a * b)) % a == n % a
  {
    var q, r := n / (a * b), n % (a * b);
    assert n == a * (b * q) + r;
    DivModUnique(n, a, b * q + r / a, r % a);
  }

  /** Dividing twice is dividing by the product. */
  lemma DivDiv(n: nat, a: nat, b: nat)
    requires a >= 1 && b >= 1
    ensures (n / a) / b == n / (a * b)
  {
    var q, r := n / (a * b), n % (a * b);
    assert n == a * (b * q + r / a) + r % a;
    DivModUnique(n, a, b * q + r / a, r % a);
    DivModUnique(r, a, r / a, r % a);
    DivModUnique(n / a, b, q, r / a);
  }

  /** Residue of a high part plus a low part. */
  lemma DivModSplit(l: nat, p: nat, h: nat)
    requires p >= 1 && l < p
    ensures (p * h + l) / p == h && (p * h + l) % p == l
  {
    DivModUnique(p * h + l, p, h, l);
  }

  // ---------------------------------------------------------------------------
  // Bit-level operators
  // ---------------------------------------------------------------------------

  /** Bit `i` of `n` (`(n >> i) & 1`); used on naturals only. */
  function Bit(n: int, i: nat): (r: int)
  {
    (n / Pow2(i)) % 2
  }

  /** Bitwise `a & b`, bit by bit from the least significant. */
  function And(a: nat, b: nat): (r: nat)
    ensures r <= a && r <= b
    decreases a
  {
    if a == 0 || b == 0 then 0
    else 2 * And(a / 2, b / 2) + (if a % 2 == 1 && b % 2 == 1 then 1 else 0)
  }

  /** Bitwise `a | b`, bit by bit from the least significant. */
  function Or(a: nat, b: nat): (r: nat)
    ensures a <= r <= a + b && b <= r
    decreases a
  {
    if a == 0 then b
    else if b == 0 then a
    else 2 * Or(a / 2, b / 2) + (if a % 2 == 1 || b % 2 == 1 then 1 else 0)
  }

  /** `!n` on a `u128`: every one of the 128 bits flipped. */
  function Not(n: U128): (r: U128)
  {
    MODULUS - 1 - n
  }

  /** `n >> s`; Rust refuses a shift of 128 or more. */
  function ShiftRight(n: U128, s: nat): (r: U128)
    requires s < 128
  {
    DivBelow(n, Pow2(s), MODULUS);
    n / Pow2(s)
  }

  /** `n << s`; bits shifted past bit 127 are lost. */
  function ShiftLeft(n: U128, s: nat): (r: U128)
    requires s < 128
  {
    (n * Pow2(s)) % MODULUS
  }

  /** `a.wrapping_add(b)`. */
  function WrappingAdd(a: U128, b: U128): (r: U128)
  {
    (a + b) % MODULUS
  }

  /** `a.wrapping_sub(b)`. */
  function WrappingSub(a: U128, b: U128): (r: U128)
  {
    (a - b) % MODULUS
  }

  /** Wrapping arithmetic drops the carry out of bit 127, or borrows one
      into it: the result is the exact one, shifted by 2^128 when needed. */
  lemma WrappingCarry(a: U128, b: U128)
    ensures WrappingAdd(a, b) == if a + b < MODULUS then a + b else a + b - MODULUS
    ensures WrappingSub(a, b) == if a >= b then a - b else a - b + MODULUS
  {
    if a + b < MODULUS {
      DivModUnique(a + b, MODULUS, 0, a + b);
    } else {
      DivModUnique(a + b, MODULUS, 1, a + b - MODULUS);
    }
    if a >= b {
      DivModUnique(a - b, MODULUS, 0, a - b);
    } else {
      DivModUnique(a - b, MODULUS, -1, a - b + MODULUS);
    }
  }

  /** `n as i128`: the same 128 bits read as a two's-complement signed value. */
  function AsI128(n: U128): (r: int)
    ensures -(HALF as int) <= r < HALF
    ensures (r - n) % MODULUS == 0
  {
    if n < HALF then n else n - MODULUS
  }

  // ---------------------------------------------------------------------------
  // What the operators mean bit by bit
  // ---------------------------------------------------------------------------

  /** `n & (2^k - 1)` keeps exactly the low k bits. */
  lemma {:induction false} AndLowMask(n: nat, k: nat)
    ensures And(n, Pow2(k) - 1) == n % Pow2(k)
  {
    if k > 0 && n > 0 {
      AndLowMask(n / 2, k - 1);
      AndLowMaskStep(n, k);
    } else if k == 0 {
      assert Pow2(k) - 1 == 0 && n % Pow2(k) == 0 by {
        assert Pow2(k) == 1;
        DivModUnique(n, 1, n, 0);
      }
      assert And(n, 0) == 0;
    } else {
      assert And(0, Pow2(k) - 1) == 0;
      assert 0 % Pow2(k) == 0 by { DivModUnique(0, Pow2(k), 0, 0); }
    }
  }

  /** The inductive step of `AndLowMask`: one more low bit. */
  lemma AndLowMaskStep(n: nat, k: nat)
    requires k > 0 && n > 0
    requires And(n / 2, Pow2(k - 1) - 1) == (n / 2) % Pow2(k - 1)
    ensures And(n, Pow2(k) - 1) == n % Pow2(k)
  {
    assert (Pow2(k) - 1) / 2 == Pow2(k - 1) - 1 && (Pow2(k) - 1) % 2 == 1 by {
      assert Pow2(k) - 1 == 2 * (Pow2(k - 1) - 1) + 1;
      DivModSplit(1, 2, Pow2(k - 1) - 1);
    }
    assert And(n, Pow2(k) - 1) == 2 * And(n / 2, Pow2(k - 1) - 1) + n % 2;
    assert n % Pow2(k) == 2 * ((n / 2) % Pow2(k - 1)) + n % 2 by {
      ModDouble(n, Pow2(k - 1));
    }
  }

  /** `n | (2^w - 1)` is all ones when `n` has at most w bits. */
  lemma {:induction false} OrAllOnes(n: nat, w: nat)
    requires n < Pow2(w)
    ensures Or(n, Pow2(w) - 1) == Pow2(w) - 1
  {
    if n > 0 {
      assert w > 0;
      assert n / 2 < Pow2(w - 1) by { HalfBelow(n, Pow2(w - 1)); }
      OrAllOnes(n / 2, w - 1);
      OrAllOnesStep(n, w);
    }
  }

  lemma OrAllOnesStep(n: nat, w: nat)
    requires n > 0 && w > 0 && Or(n / 2, Pow2(w - 1) - 1) == Pow2(w - 1) - 1
    ensures Or(n, Pow2(w) - 1) == Pow2(w) - 1
  {
    assert Pow2(w) == 2 * Pow2(w - 1);
    assert (Pow2(w) - 1) / 2 == Pow2(w - 1) - 1 && (Pow2(w) - 1) % 2 == 1 by {
      DivModSplit(1, 2, Pow2(w - 1) - 1);
    }
  }

  /** 2^a <= 2^b for a <= b, with room for one more doubling when a < b. */
  lemma Pow2Monotone(a: nat, b: nat)
    requires a <= b
    ensures Pow2(a) <= Pow2(b)
    ensures a < b ==> 2 * Pow2(a) <= Pow2(b)
  {
    Pow2Divides(a, b);
  }

  /** `n | (2^w - 2^k)` keeps the low k bits of `n` and sets bits k .. w-1. */
  lemma {:induction false} OrHighMask(n: nat, w: nat, k: nat)
    requires k <= w && n < Pow2(w)
    ensures Pow2(k) <= Pow2(w)
    ensures Or(n, Pow2(w) - Pow2(k)) == n % Pow2(k) + (Pow2(w) - Pow2(k))
    decreases w, 1
  {
    if k == 0 {
      OrHighMaskAll(n, w, k);
    } else if k == w {
      OrHighMaskNone(n, w, k);
    } else if n > 0 {
      OrHighMaskRec(n, w, k);
    } else {
      OrHighMaskZero(n, w, k);
    }
  }

  /** `OrHighMask` for 0 < k < w and n > 0, by the induction on w. */
  lemma {:induction false} OrHighMaskRec(n: nat, w: nat, k: nat)
    requires 0 < k < w && 0 < n < Pow2(w)
    ensures Pow2(k) <= Pow2(w)
    ensures Or(n, Pow2(w) - Pow2(k)) == n % Pow2(k) + (Pow2(w) - Pow2(k))
    decreases w, 0
  {
    assert n / 2 < Pow2(w - 1) by { HalfBelow(n, Pow2(w - 1)); }
    OrHighMask(n / 2, w - 1, k - 1);
    OrHighMaskStep(n, w, k);
  }

  /** `OrHighMask` for k = w, where the mask is empty. */
  lemma OrHighMaskNone(n: nat, w: nat, k: nat)
    requires k == w && n < Pow2(w)
    ensures Pow2(k) <= Pow2(w)
    ensures Or(n, Pow2(w) - Pow2(k)) == n % Pow2(k) + (Pow2(w) - Pow2(k))
  {
    assert n % Pow2(k) == n by { DivModSplit(n, Pow2(k), 0); }
    assert Pow2(w) - Pow2(k) == 0;
  }

  /** `OrHighMask` for n = 0, which is the mask itself. */
  lemma OrHighMaskZero(n: nat, w: nat, k: nat)
    requires k <= w && n == 0
    ensures Pow2(k) <= Pow2(w)
    ensures Or(n, Pow2(w) - Pow2(k)) == n % Pow2(k) + (Pow2(w) - Pow2(k))
  {
    Pow2Monotone(k, w);
    assert 0 % Pow2(k) == 0 by { DivModUnique(0, Pow2(k), 0, 0); }
  }

  /** `OrHighMask` for k = 0, where the mask is all ones. */
  lemma OrHighMaskAll(n: nat, w: nat, k: nat)
    requires k == 0 && n < Pow2(w)
    ensures Pow2(k) <= Pow2(w)
    ensures Or(n, Pow2(w) - Pow2(k)) == n % Pow2(k) + (Pow2(w) - Pow2(k))
  {
    assert Pow2(k) == 1;
    assert n % 1 == 0 by { DivModUnique(n, 1, n, 0); }
    OrAllOnes(n, w);
  }

  /** The inductive step of `OrHighMask`: bit 0 of the mask is clear, so
      bit 0 of `n` is kept. */
  lemma OrHighMaskStep(n: nat, w: nat, k: nat)
    requires 0 < k < w && n > 0 && Pow2(k - 1) <= Pow2(w - 1)
    requires Or(n / 2, Pow2(w - 1) - Pow2(k - 1)) == (n / 2) % Pow2(k - 1) + (Pow2(w - 1) - Pow2(k - 1))
    ensures Pow2(k) <= Pow2(w)
    ensures Or(n, Pow2(w) - Pow2(k)) == n % Pow2(k) + (Pow2(w) - Pow2(k))
  {
    Pow2Monotone(k, w);
    EvenHalf(Pow2(w) - Pow2(k), Pow2(w - 1) - Pow2(k - 1));
    assert n % Pow2(k) == 2 * ((n / 2) % Pow2(k - 1)) + n % 2 by {
      ModDouble(n, Pow2(k - 1));
    }
  }

  lemma EvenHalf(m: nat, x: nat)
    requires m == 2 * x
    ensures m / 2 == x && m % 2 == 0
  {
    DivModSplit(0, 2, x);
  }

  /** `!n` flips each of the 128 bits of `n`. */
  lemma NotFlipsBits(n: U128, i: nat)
    requires i < 128
    ensures Bit(Not(n), i) == 1 - Bit(n, i)
  {
    Pow2Modulus();
    ComplementBits(n, 128, i);
  }

  lemma {:induction false} ComplementBits(n: nat, w: nat, i: nat)
    requires i < w && n < Pow2(w)
    ensures Bit(Pow2(w) - 1 - n, i) == 1 - Bit(n, i)
  {
    ComplementHalf(n, w);
    if i > 0 {
      assert Bit(Pow2(w) - 1 - n, i) == Bit(Pow2(w - 1) - 1 - n / 2, i - 1) by {
        BitHalf(Pow2(w) - 1 - n, i);
      }
      assert Bit(n, i) == Bit(n / 2, i - 1) by { BitHalf(n, i); }
      assert n / 2 < Pow2(w - 1) by { HalfBelow(n, Pow2(w - 1)); }
      ComplementBits(n / 2, w - 1, i - 1);
    } else {
      BitZero(Pow2(w) - 1 - n);
      BitZero(n);
    }
  }

  /** Halving `2^w - 1 - n` halves `n` and flips its lowest bit. */
  lemma ComplementHalf(n: nat, w: nat)
    requires 0 < w && n < Pow2(w)
    ensures Pow2(w) == 2 * Pow2(w - 1)
    ensures (Pow2(w) - 1 - n) / 2 == Pow2(w - 1) - 1 - n / 2
    ensures (Pow2(w) - 1 - n) % 2 == 1 - n % 2
  {
    assert Pow2(w) == 2 * Pow2(w - 1);
    DivModIdentity(n, 2);
    assert Pow2(w) - 1 - n == 2 * (Pow2(w - 1) - 1 - n / 2) + (1 - n % 2);
    DivModSplit(1 - n % 2, 2, Pow2(w - 1) - 1 - n / 2);
  }

  /** Bit i of x is bit i-1 of x / 2. */
  lemma BitHalf(x: nat, i: nat)
    requires i > 0
    ensures Bit(x, i) == Bit(x / 2, i - 1)
  {
    assert Pow2(1) == 2;
    BitAbove(x, 1, i - 1);
  }

  /** Bit 0 is the parity. */
  lemma BitZero(x: nat)
    ensures Bit(x, 0) == x % 2
  {
    assert Pow2(0) == 1;
    DivModUnique(x, 1, x, 0);
  }

  /** 2^127 is the top-bit weight of a `u128`. */
  lemma Pow2Half()
    ensures Pow2(127) == HALF
  {
    Pow2Modulus();
  }

  /** Bits of `x / 2^a` are the bits of `x` from position `a` on. */
  lemma BitAbove(x: nat, a: nat, j: nat)
    ensures Bit(x, a + j) == Bit(x / Pow2(a), j)
  {
    var pa, pj := Pow2(a), Pow2(j);
    Pow2Add(a, j);
    DivDiv(x, pa, pj);
    assert x / Pow2(a + j) == (x / pa) / pj;
  }

  /** Bits below position `k` depend only on `x mod 2^k`. */
  lemma BitBelow(x: nat, i: nat, k: nat)
    requires i < k
    ensures Bit(x % Pow2(k), i) == Bit(x, i)
  {
    Pow2Divides(i, k);
    var e' := Pow2(k - i - 1);
    assert Pow2(k - i) == 2 * e';
    ModEvenMultiple(x, Pow2(i), e');
  }

  /** Reducing modulo `p * 2e` keeps the parity of `x / p`. */
  lemma ModEvenMultiple(x: nat, p: nat, e': nat)
    requires p >= 1 && e' >= 1
    ensures ((x % (p * (2 * e'))) / p) % 2 == (x / p) % 2
  {
    var e := 2 * e';
    var q, r := x / (p * e), x % (p * e);
    DivModIdentity(x, p * e);
    DivModIdentity(r, p);
    var t := r / p;
    assert x == p * (e * q + t) + r % p by {
      assert p * (e * q + t) == (p * e) * q + p * t;
    }
    DivModUnique(x, p, e * q + t, r % p);
    assert e * q + t == 2 * (e' * q + t / 2) + t % 2;
    DivModUnique(e * q + t, 2, e' * q + t / 2, t % 2);
    DivModUnique(t, 2, t / 2, t % 2);
  }

  /** Every bit of 2^w - 1 below position w is set. */
  lemma AllOnesBit(w: nat, j: nat)
    requires j < w
    ensures Bit(Pow2(w) - 1, j) == 1
  {
    ComplementBits(0, w, j);
  }

  /** Above position `a`, a word whose high part is all ones or all zeros
      has every bit equal to that fill. */
  lemma FilledBits(r: nat, a: nat, j: nat, w: nat, fill: bool)
    requires j < w
    requires r / Pow2(a) == if fill then Pow2(w) - 1 else 0
    ensures Bit(r, a + j) == if fill then 1 else 0
  {
    var q := r / Pow2(a);
    assert Bit(r, a + j) == Bit(q, j) by { BitAbove(r, a, j); }
    if fill {
      AllOnesBit(w, j);
    } else {
      assert Bit(q, j) == 0 by { assert q == 0; }
    }
  }
}
