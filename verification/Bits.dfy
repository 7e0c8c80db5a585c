/** Powers of two and bitwise operators on two's-complement integers. */
module Bits {
  import opened Arithmetic

  function Pow2(n: nat): (p: int)
    ensures p >= 1
  {
    if n == 0 then 1 else 2 * Pow2(n - 1)
  }

  lemma {:induction false} Pow2Adds(a: nat, b: nat)
    ensures Pow2(a + b) == Pow2(a) * Pow2(b)
    decreases b
  {
    if b > 0 {
      Pow2Adds(a, b - 1);
    }
  }

  lemma {:induction false} Pow2Grows(a: nat, b: nat)
    requires a <= b
    ensures Pow2(a) <= Pow2(b)
    decreases b
  {
    if a < b {
      Pow2Grows(a, b - 1);
    }
  }

  datatype BitOp = AndOp | OrOp | XorOp

  function OnBits(op: BitOp, x: int, y: int): (r: int)
    requires 0 <= x <= 1 && 0 <= y <= 1
    ensures 0 <= r <= 1
  {
    match op
    case AndOp => if x == 1 && y == 1 then 1 else 0
    case OrOp => if x == 1 || y == 1 then 1 else 0
    case XorOp => if x != y then 1 else 0
  }

  function Magnitude(x: int): nat {
    if x < 0 then -x - 1 else x
  }

  /** A bitwise operator on two's-complement integers of any width: a negative
      number has ones all the way up. */
  function Bitwise(op: BitOp, a: int, b: int): int
    decreases Magnitude(a) + Magnitude(b)
  {
    if a in {0, -1} && b in {0, -1} then -OnBits(op, -a, -b)
    else 2 * Bitwise(op, a / 2, b / 2) + OnBits(op, a % 2, b % 2)
  }

  /** Bit `k` of a number. */
  function Bit(x: int, k: nat): (r: int)
    ensures 0 <= r <= 1
    decreases k
  {
    if k == 0 then x % 2 else Bit(x / 2, k - 1)
  }

  lemma {:induction false} BitOfSign(x: int, k: nat)
    requires x in {0, -1}
    ensures Bit(x, k) == -x
  {
    if k > 0 {
      BitOfSign(x / 2, k - 1);
    }
  }

  lemma Halves(h: int, bit: int)
    requires 0 <= bit <= 1
    ensures (2 * h + bit) / 2 == h && (2 * h + bit) % 2 == bit
  {
  }

  /** The operator acts on each bit by itself. */
  lemma {:induction false} BitwiseIsPerBit(op: BitOp, a: int, b: int, k: nat)
    ensures Bit(Bitwise(op, a, b), k) == OnBits(op, Bit(a, k), Bit(b, k))
    decreases k
  {
    if a in {0, -1} && b in {0, -1} {
      BitOfSign(a, k);
      BitOfSign(b, k);
      BitOfSign(-OnBits(op, -a, -b), k);
    } else {
      Halves(Bitwise(op, a / 2, b / 2), OnBits(op, a % 2, b % 2));
      if k > 0 {
        BitwiseIsPerBit(op, a / 2, b / 2, k - 1);
      }
    }
  }

  // ----- widths -------------------------------------------------------------------------------

  predicate FitsSigned(x: int, width: nat)
    requires width > 0
  {
    -Pow2(width - 1) <= x < Pow2(width - 1)
  }

  predicate FitsUnsigned(x: int, width: nat) {
    0 <= x < Pow2(width)
  }

  /** Bitwise operators keep a signed width, and an unsigned one. */
  lemma {:induction false} BitwiseKeepsSigned(op: BitOp, a: int, b: int, width: nat)
    requires width > 0 && FitsSigned(a, width) && FitsSigned(b, width)
    ensures FitsSigned(Bitwise(op, a, b), width)
    decreases width
  {
    if width > 1 && !(a in {0, -1} && b in {0, -1}) {
      BitwiseKeepsSigned(op, a / 2, b / 2, width - 1);
    }
  }

  lemma {:induction false} BitwiseKeepsUnsigned(op: BitOp, a: int, b: int, width: nat)
    requires FitsUnsigned(a, width) && FitsUnsigned(b, width)
    ensures FitsUnsigned(Bitwise(op, a, b), width)
    decreases width
  {
    if width > 0 && !(a == 0 && b == 0) {
      BitwiseKeepsUnsigned(op, a / 2, b / 2, width - 1);
    }
  }

  // ----- masks ---------------------------------------------------------------------------------

  lemma ModHalves(x: int, k: nat)
    requires k > 0
    ensures x % Pow2(k) == 2 * (x / 2 % Pow2(k - 1)) + x % 2
  {
    var p := Pow2(k - 1);
    var h := x / 2;
    assert h == h / p * p + h % p;
    assert x == 2 * h + x % 2;
    assert x == h / p * (2 * p) + (2 * (h % p) + x % 2);
    Quotient(x, 2 * p, h / p, 2 * (h % p) + x % 2);
  }

  /** Masking with `k` ones keeps the value modulo `2^k`. */
  lemma {:induction false} LowMask(x: int, k: nat)
    ensures Bitwise(AndOp, x, Pow2(k) - 1) == x % Pow2(k)
    decreases k
  {
    if k == 0 {
      AndZero(x);
    } else {
      LowMask(x / 2, k - 1);
      ModHalves(x, k);
      Halves(Pow2(k - 1) - 1, 1);
    }
  }

  lemma {:induction false} AndZero(x: int)
    ensures Bitwise(AndOp, x, 0) == 0
    decreases Magnitude(x)
  {
    if x !in {0, -1} {
      AndZero(x / 2);
    }
  }

  lemma AndHalves(x: int, h: int)
    requires h > 0
    ensures Bitwise(AndOp, x, 2 * h) == 2 * Bitwise(AndOp, x / 2, h)
    ensures Bitwise(AndOp, x, 2 * h + 1) == 2 * Bitwise(AndOp, x / 2, h) + x % 2
  {
    Halves(h, 0);
    Halves(h, 1);
  }

  /** Masking a `width`-bit number with ones above `k` zeros clears its low
      `k` bits. */
  lemma {:induction false} HighMask(x: int, width: nat, k: nat)
    requires k <= width && FitsUnsigned(x, width)
    ensures Bitwise(AndOp, x, Pow2(width) - Pow2(k)) == x - x % Pow2(k)
    decreases k
  {
    if k == 0 {
      LowMask(x, width);
      Quotient(x, Pow2(width), 0, x);
    } else if k == width {
      AndZero(x);
      Quotient(x, Pow2(width), 0, x);
    } else {
      HighMask(x / 2, width - 1, k - 1);
      ModHalves(x, k);
      Pow2Grows(k, width - 1);
      hide Bitwise;
      AndHalves(x, Pow2(width - 1) - Pow2(k - 1));
    }
  }

  /** The three operators, by arithmetic: OR and AND share out the sum, and XOR is
      what OR has beyond AND. */
  lemma {:induction false} BitwiseSums(a: int, b: int)
    ensures Bitwise(OrOp, a, b) + Bitwise(AndOp, a, b) == a + b
    ensures Bitwise(XorOp, a, b) == Bitwise(OrOp, a, b) - Bitwise(AndOp, a, b)
    decreases Magnitude(a) + Magnitude(b)
  {
    if !(a in {0, -1} && b in {0, -1}) {
      BitwiseSums(a / 2, b / 2);
    }
  }
}
