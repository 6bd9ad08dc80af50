/**
  Integer powers of two, the integer logarithm, and the operators `&`, `|`,
  `^`, `>>` and `<<` of unsigned integers, defined on `nat` bit by bit.
  Every operand the library gives these operators is below 2^32, so Go's
  64-bit `uint` arithmetic never wraps there and these definitions are exact.
  Every definition halves or doubles; multiplication and division by a
  variable power of two appear only in the lemmas that connect the two views.
 */
module Bits {

  /** 2^n */
  function Pow2(n: nat): (r: nat)
    ensures r >= 1
  {
    if n == 0 then 1 else 2 * Pow2(n - 1)
  }

  lemma {:induction false} Pow2Monotone(a: nat, b: nat)
    requires a <= b
    ensures Pow2(a) <= Pow2(b)
  {
    if a < b {
      Pow2Monotone(a, b - 1);
    }
  }

  lemma Pow2Constants()
    ensures Pow2(8) == 256 && Pow2(16) == 65536 && Pow2(24) == 16777216
    ensures Pow2(32) == 4294967296
  {
  }

  /** The integer part of log2(n): the value `uint(math.Log2(float64(n)))` takes for n >= 1. */
  function FloorLog2(n: nat): (r: nat)
    requires n >= 1
    ensures Pow2(r) <= n < Pow2(r + 1)
  {
    if n == 1 then 0 else 1 + FloorLog2(n / 2)
  }

  /** The logarithm of an exact power of two is its exponent. */
  lemma {:induction false} FloorLog2OfPow2(h: nat)
    ensures FloorLog2(Pow2(h)) == h
  {
    var r := FloorLog2(Pow2(h));
    if r < h {
      Pow2Monotone(r + 1, h);
    } else if r > h {
      Pow2Monotone(h + 1, r);
    }
  }

  /** `x >> n` */
  function Shr(x: nat, n: nat): nat
  {
    if n == 0 then x else Shr(x / 2, n - 1)
  }

  /** `x << n` */
  function Shl(x: nat, n: nat): nat
  {
    if n == 0 then x else 2 * Shl(x, n - 1)
  }

  /** The low k bits of x, that is, x modulo 2^k. */
  function LowBits(x: nat, k: nat): (r: nat)
    ensures r <= x && r < Pow2(k)
  {
    if k == 0 then 0 else 2 * LowBits(x / 2, k - 1) + x % 2
  }

  /** The mask whose bits k .. w-1 are set: 2^w - 2^k. */
  function HighMask(w: nat, k: nat): (m: nat)
    requires k <= w
    ensures m + Pow2(k) == Pow2(w)
  {
    Pow2Monotone(k, w);
    Pow2(w) - Pow2(k)
  }

  /** Go's three bitwise operators: `&`, `|` and `^`. */
  datatype Op = AndOp | OrOp | XorOp

  /** The operator applied to one bit of each operand. */
  function Bit(f: Op, a: bool, b: bool): (r: nat)
    ensures r < 2
  {
    match f
    case AndOp => if a && b then 1 else 0
    case OrOp => if a || b then 1 else 0
    case XorOp => if a != b then 1 else 0
  }

  /** The operator applied bit by bit, least-significant bit first. */
  function BitOp(f: Op, x: nat, y: nat): nat
    decreases x + y
  {
    if x == 0 && y == 0 then 0
    else 2 * BitOp(f, x / 2, y / 2) + Bit(f, x % 2 == 1, y % 2 == 1)
  }

  /** `x & y`: never larger than either operand. */
  function And(x: nat, y: nat): (r: nat)
    ensures r <= x && r <= y
  {
    AndBelowOperands(x, y);
    BitOp(AndOp, x, y)
  }

  /** `x | y`: never smaller than either operand. */
  function Or(x: nat, y: nat): (r: nat)
    ensures x <= r && y <= r
  {
    OrAboveOperands(x, y);
    BitOp(OrOp, x, y)
  }

  /** `x ^ y` */
  function Xor(x: nat, y: nat): nat
  {
    BitOp(XorOp, x, y)
  }

  /** The big-endian value of four bytes: b3 is the most significant. */
  function BigEndian(b3: nat, b2: nat, b1: nat, b0: nat): nat
  {
    AppendByte(AppendByte(AppendByte(b3, b2), b1), b0)
  }

  /** x followed by the byte b. */
  function AppendByte(x: nat, b: nat): nat
  {
    x * 256 + b
  }

  // ---------------------------------------------------------------------------
  // Connecting the bit-level definitions with multiplication and division

  /** Division with remainder has one answer. */
  lemma DivModUnique(x: int, d: int, q: int, r: int)
    requires d > 0 && 0 <= r < d && x == d * q + r
    ensures x / d == q && x % d == r
  {
    var q', r' := x / d, x % d;
    assert d * (q' - q) == r - r' by {
      assert d * q' + r' == d * q + r;
    }
    if q' > q {
      MulAtLeast(d, q' - q);
    } else if q' < q {
      MulAtLeast(d, q - q');
    }
  }

  lemma MulAtLeast(d: int, t: int)
    requires d > 0 && t >= 1
    ensures d * t >= d
  {
    assert d * t == d * (t - 1) + d;
  }

  lemma MulDouble(p: int, q: int)
    ensures 2 * (p * q) == p * (2 * q)
  {
  }

  /** `x << n` multiplies by 2^n. */
  lemma {:induction false} ShlIsMul(x: nat, n: nat)
    ensures Shl(x, n) == x * Pow2(n)
  {
    if n > 0 {
      ShlIsMul(x, n - 1);
      MulDouble(x, Pow2(n - 1));
    }
  }

  /** x is its high part shifted back up plus its low bits. */
  lemma {:induction false} ShrLowBits(x: nat, n: nat)
    ensures x == Shl(Shr(x, n), n) + LowBits(x, n)
  {
    if n > 0 {
      ShrLowBits(x / 2, n - 1);
    }
  }

  /** `x >> n` divides by 2^n and LowBits is the remainder. */
  lemma ShrIsDiv(x: nat, n: nat)
    ensures Shr(x, n) == x / Pow2(n) && LowBits(x, n) == x % Pow2(n)
  {
    ShrLowBits(x, n);
    ShlIsMul(Shr(x, n), n);
    DivModUnique(x, Pow2(n), Shr(x, n), LowBits(x, n));
  }

  // ---------------------------------------------------------------------------
  // Lemmas about the bitwise operators

  /** One step of the bit-by-bit definition, valid for all operands. */
  lemma BitOpStep(f: Op, x: nat, y: nat)
    ensures BitOp(f, x, y) == 2 * BitOp(f, x / 2, y / 2) + Bit(f, x % 2 == 1, y % 2 == 1)
  {
  }

  lemma {:induction false} AndBelowOperands(x: nat, y: nat)
    ensures BitOp(AndOp, x, y) <= x && BitOp(AndOp, x, y) <= y
    decreases x + y
  {
    if x != 0 || y != 0 {
      AndBelowOperands(x / 2, y / 2);
    }
  }

  lemma {:induction false} OrAboveOperands(x: nat, y: nat)
    ensures x <= BitOp(OrOp, x, y) && y <= BitOp(OrOp, x, y)
    decreases x + y
  {
    if x != 0 || y != 0 {
      OrAboveOperands(x / 2, y / 2);
    }
  }

  /** Operands of w bits give a result of w bits. */
  lemma {:induction false} BitOpBelow(f: Op, x: nat, y: nat, w: nat)
    requires x < Pow2(w) && y < Pow2(w)
    ensures BitOp(f, x, y) < Pow2(w)
  {
    if w > 0 && (x != 0 || y != 0) {
      BitOpBelow(f, x / 2, y / 2, w - 1);
    }
  }

  /**
    The operators work independently on the bits above w and the low w bits:
    ((a << w) + b) op ((c << w) + d) == ((a op c) << w) + (b op d).
   */
  lemma {:induction false} BitOpConcat(f: Op, a: nat, b: nat, c: nat, d: nat, w: nat)
    requires b < Pow2(w) && d < Pow2(w)
    ensures BitOp(f, Shl(a, w) + b, Shl(c, w) + d) == Shl(BitOp(f, a, c), w) + BitOp(f, b, d)
  {
    if w > 0 {
      var x, y := Shl(a, w) + b, Shl(c, w) + d;
      var x', y' := Shl(a, w - 1) + b / 2, Shl(c, w - 1) + d / 2;
      assert x / 2 == x' && x % 2 == b % 2 && y / 2 == y' && y % 2 == d % 2;
      BitOpConcat(f, a, b / 2, c, d / 2, w - 1);
      BitOpStep(f, x, y);
      BitOpStep(f, b, d);
    }
  }

  /** Appending a byte below x is a shift by 8. */
  lemma ShlByte(x: nat)
    ensures Shl(x, 8) == x * 256
  {
    ShlIsMul(x, 8);
    Pow2Constants();
  }

  /** BitOpConcat for one byte: (a * 256 + b) op (c * 256 + d) == (a op c) * 256 + (b op d). */
  lemma BitOpAppendByte(f: Op, a: nat, b: nat, c: nat, d: nat)
    requires b < 256 && d < 256
    ensures BitOp(f, AppendByte(a, b), AppendByte(c, d)) == AppendByte(BitOp(f, a, c), BitOp(f, b, d))
  {
    Pow2Constants();
    ShlByte(a);
    ShlByte(c);
    ShlByte(BitOp(f, a, c));
    BitOpConcat(f, a, b, c, d, 8);
  }

  /** The operators work octet by octet on a big-endian 32-bit word. */
  lemma BitOpBigEndian(f: Op, a3: nat, a2: nat, a1: nat, a0: nat, c3: nat, c2: nat, c1: nat, c0: nat)
    requires a2 < 256 && a1 < 256 && a0 < 256 && c2 < 256 && c1 < 256 && c0 < 256
    ensures BitOp(f, BigEndian(a3, a2, a1, a0), BigEndian(c3, c2, c1, c0))
         == BigEndian(BitOp(f, a3, c3), BitOp(f, a2, c2), BitOp(f, a1, c1), BitOp(f, a0, c0))
  {
    var a32, c32 := AppendByte(a3, a2), AppendByte(c3, c2);
    var a321, c321 := AppendByte(a32, a1), AppendByte(c32, c1);
    BitOpAppendByte(f, a3, a2, c3, c2);
    BitOpAppendByte(f, a32, a1, c32, c1);
    BitOpAppendByte(f, a321, a0, c321, c0);
  }

  lemma {:induction false} AndZero(x: nat)
    ensures And(x, 0) == 0
  {
    if x != 0 {
      AndZero(x / 2);
    }
  }

  lemma {:induction false} OrZero(x: nat)
    ensures Or(x, 0) == x
  {
    if x != 0 {
      OrZero(x / 2);
    }
  }

  /** AND with w one-bits keeps the low w bits. */
  lemma {:induction false} AndLowOnes(x: nat, w: nat)
    ensures And(x, Pow2(w) - 1) == LowBits(x, w)
  {
    if w == 0 {
      AndZero(x);
    } else {
      var ones := Pow2(w) - 1;
      assert ones / 2 == Pow2(w - 1) - 1 && ones % 2 == 1;
      BitOpStep(AndOp, x, ones);
      assert Bit(AndOp, x % 2 == 1, true) == x % 2;
      AndLowOnes(x / 2, w - 1);
    }
  }

  /** A number of w bits is its own low w bits. */
  lemma {:induction false} LowBitsOfSmall(x: nat, w: nat)
    requires x < Pow2(w)
    ensures LowBits(x, w) == x
  {
    if w > 0 {
      LowBitsOfSmall(x / 2, w - 1);
    }
  }

  /**
    AND with HighMask(w, k) clears the low k bits of a w-bit number: the
    result is x rounded down to a multiple of 2^k.
   */
  lemma {:induction false} AndHighMask(x: nat, w: nat, k: nat)
    requires k <= w && x < Pow2(w)
    ensures And(x, HighMask(w, k)) == x - LowBits(x, k)
  {
    if k == 0 {
      AndLowOnes(x, w);
      LowBitsOfSmall(x, w);
    } else {
      assert HighMask(w, k) == 2 * HighMask(w - 1, k - 1);
      BitOpStep(AndOp, x, HighMask(w, k));
      AndHighMask(x / 2, w - 1, k - 1);
    }
  }

  /** OR with k one-bits sets the low k bits: the last number of x's block of 2^k. */
  lemma {:induction false} OrLowOnes(x: nat, k: nat)
    ensures Or(x, Pow2(k) - 1) == x - LowBits(x, k) + Pow2(k) - 1
  {
    if k == 0 {
      OrZero(x);
    } else {
      var ones := Pow2(k) - 1;
      assert ones / 2 == Pow2(k - 1) - 1 && ones % 2 == 1;
      BitOpStep(OrOp, x, ones);
      assert Bit(OrOp, x % 2 == 1, true) == 1;
      OrLowOnes(x / 2, k - 1);
    }
  }

  /** XOR with w one-bits complements a w-bit number. */
  lemma {:induction false} XorOnes(m: nat, w: nat)
    requires m < Pow2(w)
    ensures Xor(m, Pow2(w) - 1) == Pow2(w) - 1 - m
  {
    if w > 0 {
      BitOpStep(XorOp, m, Pow2(w) - 1);
      XorOnes(m / 2, w - 1);
    }
  }

  /** Rounding down to a multiple of 2^k leaves no low bits. */
  lemma {:induction false} LowBitsOfRounded(x: nat, k: nat)
    ensures LowBits(x - LowBits(x, k), k) == 0
  {
    if k > 0 {
      LowBitsOfRounded(x / 2, k - 1);
      assert (x - LowBits(x, k)) / 2 == x / 2 - LowBits(x / 2, k - 1);
    }
  }

  lemma {:induction false} ShrShr(x: nat, a: nat, b: nat)
    ensures Shr(Shr(x, a), b) == Shr(x, a + b)
  {
    if a > 0 {
      ShrShr(x / 2, a - 1, b);
    }
  }

  /** x is its high part times 256 plus its low byte. */
  lemma SplitLowByte(x: nat)
    ensures x == Shr(x, 8) * 256 + And(x, 255) && And(x, 255) < 256
  {
    Pow2Constants();
    ShrLowBits(x, 8);
    ShlByte(Shr(x, 8));
    AndLowOnes(x, 8);
  }

  /**
    A number below 2^32 is the big-endian word of its four bytes
    `x >> 24`, `x >> 16 & 255`, `x >> 8 & 255` and `x & 255`.
   */
  lemma BytesOfWord(x: nat)
    requires x < 4294967296
    ensures Shr(x, 24) < 256 && And(Shr(x, 16), 255) < 256 && And(Shr(x, 8), 255) < 256 && And(x, 255) < 256
    ensures BigEndian(Shr(x, 24), And(Shr(x, 16), 255), And(Shr(x, 8), 255), And(x, 255)) == x
  {
    var h1, h2, h3 := Shr(x, 8), Shr(x, 16), Shr(x, 24);
    assert h3 < 256 by {
      Pow2Constants();
      ShrIsDiv(x, 24);
    }
    SplitLowByte(x);
    assert Shr(h1, 8) == h2 by { ShrShr(x, 8, 8); }
    SplitLowByte(h1);
    assert Shr(h2, 8) == h3 by { ShrShr(x, 16, 8); }
    SplitLowByte(h2);
  }

  // ---------------------------------------------------------------------------
  // Rounding down to a multiple of a power of two

  /** x with its k low bits cleared: the largest multiple of 2^k not above x. */
  function Align(x: nat, k: nat): (r: nat)
    ensures r <= x < r + Pow2(k)
  {
    x - LowBits(x, k)
  }

  lemma AlignOfLowBit()
    ensures Align(0, 1) == 0 && Align(1, 1) == 0
  {
    assert LowBits(1, 1) == 1;
  }

  lemma AlignIdempotent(x: nat, k: nat)
    ensures Align(Align(x, k), k) == Align(x, k)
    ensures LowBits(Align(x, k), k) == 0
  {
    LowBitsOfRounded(x, k);
  }

  lemma AlignIsShift(x: nat, k: nat)
    ensures Align(x, k) == Shl(Shr(x, k), k) == Shr(x, k) * Pow2(k)
  {
    ShrLowBits(x, k);
    ShlIsMul(Shr(x, k), k);
  }

  lemma MulCancel(p: nat, q: nat, d: nat)
    requires d > 0 && p * d == q * d
    ensures p == q
  {
  }

  /** Two numbers round down to the same multiple of 2^k exactly when they agree above bit k. */
  lemma AlignSame(x: nat, y: nat, k: nat)
    ensures Align(x, k) == Align(y, k) <==> Shr(x, k) == Shr(y, k)
  {
    AlignIsShift(x, k);
    AlignIsShift(y, k);
    if Align(x, k) == Align(y, k) {
      MulCancel(Shr(x, k), Shr(y, k), Pow2(k));
    }
  }

  lemma {:induction false} Pow2Sum(a: nat, b: nat)
    ensures Pow2(a + b) == Pow2(a) * Pow2(b)
  {
    if b > 0 {
      Pow2Sum(a, b - 1);
      MulDouble(Pow2(a), Pow2(b - 1));
    }
  }

  /** The top p of w = p + k bits set: 2^p - 1 shifted left by k. */
  lemma HighMaskIsShl(w: nat, p: nat, k: nat)
    requires p + k == w
    ensures HighMask(w, k) == Shl(Pow2(p) - 1, k)
  {
    ShlIsMul(Pow2(p) - 1, k);
    Pow2Sum(p, k);
    var a, b := Pow2(p), Pow2(k);
    assert (a - 1) * b == a * b - b;
  }
}
