/** The runtime's integer operators: computed in 128 bits, then checked against
    the destination type, so that a result is exact or the operation traps. */
module Integers {
  import opened Wrappers
  import opened Arithmetic
  import opened Bits

  datatype Kind = Byte | Int8 | Int16 | Int32 | Int64 | UInt16 | UInt32 | UInt64

  datatype Trap = Overflow | DivisionByZero | ExponentTooLarge | ExponentNegative | InvalidShiftCount

  datatype Operator = Plus | Minus | Star | Div | Percent | Power | And | Or | Xor | Shl | Shr

  datatype UnaryOperator = Negate | Not

  function Width(kind: Kind): nat {
    match kind
    case Byte => 8 case Int8 => 8
    case Int16 => 16 case UInt16 => 16
    case Int32 => 32 case UInt32 => 32
    case Int64 => 64 case UInt64 => 64
  }

  predicate Signed(kind: Kind) {
    kind in {Int8, Int16, Int32, Int64}
  }

  /** The least and greatest value of each kind, as literals. */
  function Range(kind: Kind): (int, int) {
    match kind
    case Byte => (0, 0xFF)
    case Int8 => (-0x80, 0x7F)
    case Int16 => (-0x8000, 0x7FFF)
    case Int32 => (-0x8000_0000, 0x7FFF_FFFF)
    case Int64 => (-0x8000_0000_0000_0000, 0x7FFF_FFFF_FFFF_FFFF)
    case UInt16 => (0, 0xFFFF)
    case UInt32 => (0, 0xFFFF_FFFF)
    case UInt64 => (0, 0xFFFF_FFFF_FFFF_FFFF)
  }

  predicate InRange(x: int, kind: Kind) {
    Range(kind).0 <= x <= Range(kind).1
  }

  // ----- 128-bit intermediates ------------------------------------------------------------------

  const I128_MAX: int := 0x7FFF_FFFF_FFFF_FFFF_FFFF_FFFF_FFFF_FFFF
  const TWO_128: int := 0x1_0000_0000_0000_0000_0000_0000_0000_0000

  predicate IsI128(x: int) { -I128_MAX - 1 <= x <= I128_MAX }

  /** `checked_add` and its like: none when the result leaves 128 bits. */
  function Checked(x: int): Option<int> {
    if IsI128(x) then Some(x) else None
  }

  /** The low 128 bits of a number, read as a signed number. */
  function Wrapped(x: int): int {
    var low := x % TWO_128;
    if low > I128_MAX then low - TWO_128 else low
  }

  function Pow(base: int, exponent: nat): int {
    if exponent == 0 then 1 else base * Pow(base, exponent - 1)
  }

  function CheckedInteger(value: Option<int>, kind: Kind): Result<int, Trap> {
    if value.None? || !InRange(value.value, kind) then Failure(Overflow) else Success(value.value)
  }

  function Shift(value: int, count: int, kind: Kind, left: bool): Result<int, Trap> {
    var width := Width(kind);
    if count < 0 || count >= width then Failure(InvalidShiftCount)
    else if left then CheckedInteger(Some(Wrapped(value * Pow2(count))), kind)
    else
      var pattern := Bitwise(AndOp, value % TWO_128, Pow2(width) - 1);
      CheckedInteger(Some(Wrapped(pattern / Pow2(count))), kind)
  }

  function Binary(op: Operator, left: int, right: int, kind: Kind): Result<int, Trap> {
    match op
    case Plus => CheckedInteger(Checked(left + right), kind)
    case Minus => CheckedInteger(Checked(left - right), kind)
    case Star => CheckedInteger(Checked(left * right), kind)
    case Div => if right != 0 then CheckedInteger(Checked(left / right), kind) else Failure(DivisionByZero)
    case Percent => if right != 0 then CheckedInteger(Checked(left % right), kind) else Failure(DivisionByZero)
    case Power =>
      if right < 0 then Failure(ExponentNegative)
      else if right >= 0x1_0000_0000 then Failure(ExponentTooLarge)
      else CheckedInteger(Checked(Pow(left, right)), kind)
    case And => CheckedInteger(Some(Bitwise(AndOp, left, right)), kind)
    case Or => CheckedInteger(Some(Bitwise(OrOp, left, right)), kind)
    case Xor => CheckedInteger(Some(Bitwise(XorOp, left, right)), kind)
    case Shl => Shift(left, right, kind, true)
    case Shr => Shift(left, right, kind, false)
  }

  function Unary(op: UnaryOperator, operand: int, kind: Kind): Result<int, Trap> {
    match op
    case Negate => CheckedInteger(Checked(-operand), kind)
    case Not => CheckedInteger(Some(-operand - 1), kind)
  }

  // ----- powers -----------------------------------------------------------------------------------

  /** Powers are what the laws of exponents make them. */
  lemma PowStarts(base: int)
    ensures Pow(base, 0) == 1 && Pow(base, 1) == base
  {
  }

  lemma {:induction false} PowAdds(base: int, m: nat, n: nat)
    ensures Pow(base, m + n) == Pow(base, m) * Pow(base, n)
    decreases m
  {
    if m > 0 {
      PowAdds(base, m - 1, n);
      assert base * (Pow(base, m - 1) * Pow(base, n)) == base * Pow(base, m - 1) * Pow(base, n);
    }
  }

  lemma {:induction false} PowOfTwo(n: nat)
    ensures Pow(2, n) == Pow2(n)
  {
    if n > 0 {
      PowOfTwo(n - 1);
    }
  }

  /** Two to the power `n` is the `n`-th power of two, where the type holds it. */
  lemma PowerOfTwo(n: nat, kind: Kind)
    requires n < 0x1_0000_0000
    ensures Binary(Power, 2, n, kind) ==
            if Pow2(n) <= Range(kind).1 then Success(Pow2(n)) else Failure(Overflow)
  {
    hide Pow;
    hide Pow2;
    PowOfTwo(n);
    assert InRange(2, kind) by {
      assert Range(kind).1 >= 0x7F;
    }
    if !IsI128(Pow2(n)) {
      assert Pow2(n) > Range(kind).1;
    }
  }

  // ----- exact or trap -----------------------------------------------------------------------------

  lemma Powers()
    ensures Pow2(7) == 0x80 && Pow2(8) == 0x100 && Pow2(15) == 0x8000 && Pow2(16) == 0x1_0000
    ensures Pow2(31) == 0x8000_0000 && Pow2(32) == 0x1_0000_0000
    ensures Pow2(63) == 0x8000_0000_0000_0000 && Pow2(64) == 0x1_0000_0000_0000_0000
    ensures Pow2(127) == I128_MAX + 1 && Pow2(128) == TWO_128
  {
    assert Pow2(3) == 8 && Pow2(4) == 16;
    hide Pow2;
    Pow2Adds(3, 4);
    Pow2Adds(4, 4);
    Pow2Adds(7, 8);
    Pow2Adds(8, 8);
    Pow2Adds(15, 16);
    Pow2Adds(16, 16);
    Pow2Adds(31, 32);
    Pow2Adds(32, 32);
    Pow2Adds(63, 64);
    Pow2Adds(64, 64);
  }

  /** The range of a kind is that of its width, signed or unsigned. */
  lemma RangeIsWidth(x: int, kind: Kind)
    ensures InRange(x, kind) <==> if Signed(kind) then FitsSigned(x, Width(kind)) else FitsUnsigned(x, Width(kind))
  {
    hide Pow2;
    Powers();
  }

  /** What an operator means on mathematical integers; none where it has no
      meaning. */
  function Meaning(op: Operator, left: int, right: int, kind: Kind): Option<int> {
    match op
    case Plus => Some(left + right)
    case Minus => Some(left - right)
    case Star => Some(left * right)
    case Div => if right == 0 then None else Some(left / right)
    case Percent => if right == 0 then None else Some(left % right)
    case Power => if 0 <= right < 0x1_0000_0000 then Some(Pow(left, right)) else None
    case Shl => if 0 <= right < Width(kind) then Some(left * Pow2(right)) else None
    case _ => None
  }

  lemma ShiftStaysIn128(value: int, count: nat, kind: Kind)
    requires InRange(value, kind) && count < Width(kind)
    ensures Wrapped(value * Pow2(count)) == value * Pow2(count)
  {
    hide Pow2;
    Powers();
    Pow2Grows(count, 63);
    Pow2Adds(64, 63);
    ProductBound(value, Pow2(count), Pow2(64), Pow2(63));
    WrappedFits(value * Pow2(count));
  }

  lemma WrappedFits(x: int)
    requires IsI128(x)
    ensures Wrapped(x) == x
  {
    if x >= 0 {
      Quotient(x, TWO_128, 0, x);
    } else {
      Quotient(x, TWO_128, -1, x + TWO_128);
    }
  }

  lemma ProductBound(v: int, p: int, a: int, b: int)
    requires -a < v < a && 1 <= p <= b
    ensures -(a * b) < v * p < a * b
  {
    Product(a, b - p);
    PositiveProduct(a - v, p);
    PositiveProduct(a + v, p);
    assert (a - v) * p == a * p - v * p;
    assert (a + v) * p == a * p + v * p;
    assert a * (b - p) == a * b - a * p;
  }

  /** The arithmetic operators and the left shift give the mathematical result
      exactly when there is one and the destination type holds it, and trap
      otherwise: the 128-bit intermediates never show. */
  lemma ExactOrTrap(op: Operator, left: int, right: int, kind: Kind)
    requires InRange(left, kind) && InRange(right, kind)
    requires op in {Plus, Minus, Star, Div, Percent, Power, Shl}
    ensures var exact, result := Meaning(op, left, right, kind), Binary(op, left, right, kind);
            && (exact.None? ==> result.Failure? && result.error != Overflow)
            && (exact.Some? ==>
                  result == if InRange(exact.value, kind) then Success(exact.value) else Failure(Overflow))
  {
    if op == Shl && 0 <= right < Width(kind) {
      ShiftStaysIn128(left, right, kind);
    }
  }

  /** A quotient is no further from zero than its dividend, and half as far when
      the divisor is not 1 or -1. */
  lemma QuotientShrinks(n: int, d: int)
    requires d != 0
    ensures d > 0 ==> (n >= 0 ==> 0 <= n / d <= n) && (n < 0 ==> n <= n / d < 0)
    ensures d < 0 ==> (n >= 0 ==> -n <= n / d <= 0) && (n < 0 ==> 0 < n / d <= -n)
    ensures d <= -2 && n < 0 ==> 2 * (n / d) <= 1 - n
  {
    var q, r := n / d, n % d;
    if d > 0 {
      assert n == q * d + r;
      TurnsOf(q, d);
      ShrinksByTurns(n, d, q, q * d, r);
    } else {
      assert n == -q * -d + r;
      TurnsOf(-q, -d);
      ShrinksByTurns(n, -d, -q, -q * -d, r);
    }
  }

  /** `q` turns of a positive `d` lie beyond `q`, and beyond `2 * q` from 2 on. */
  lemma TurnsOf(q: int, d: int)
    requires d > 0
    ensures q >= 0 ==> q * d >= q
    ensures q < 0 ==> q * d + d <= q + 1
    ensures q < 0 && d >= 2 ==> q * d + d <= 2 * (q + 1)
  {
    if q >= 0 {
      Product(q, d - 1);
      assert q * d == q * (d - 1) + q;
    } else {
      Product(-(q + 1), d - 1);
      assert q * d + d == (q + 1) - -(q + 1) * (d - 1);
      if d >= 2 {
        Product(-(q + 1), d - 2);
        assert q * d + d == 2 * (q + 1) - -(q + 1) * (d - 2);
      }
    }
  }

  lemma ShrinksByTurns(n: int, d: int, q: int, turns: int, r: int)
    requires d > 0 && n == turns + r && 0 <= r < d
    requires q >= 0 ==> turns >= q
    requires q < 0 ==> turns + d <= q + 1
    requires q < 0 && d >= 2 ==> turns + d <= 2 * (q + 1)
    ensures n >= 0 ==> 0 <= q <= n
    ensures n < 0 ==> n <= q < 0
    ensures n < 0 && d >= 2 ==> n - 1 <= 2 * q
  {
  }

  /** The two divisions form a pair: with a divisor other than zero the remainder
      never traps, the quotient traps on the least value divided by -1 and on
      nothing else, and together they give the dividend back. */
  lemma DivisionPair(left: int, right: int, kind: Kind)
    requires InRange(left, kind) && InRange(right, kind) && right != 0
    ensures var q, r := Binary(Div, left, right, kind), Binary(Percent, left, right, kind);
            && r.Success? && 0 <= r.value < (if right < 0 then -right else right)
            && (q.Failure? <==> Signed(kind) && left == Range(kind).0 && right == -1)
            && (q.Success? ==> q.value * right + r.value == left)
  {
    ExactOrTrap(Div, left, right, kind);
    ExactOrTrap(Percent, left, right, kind);
    QuotientInRange(left, right, kind);
    var q, r := left / right, left % right;
    assert Meaning(Div, left, right, kind) == Some(q) && Meaning(Percent, left, right, kind) == Some(r);
    assert q * right + r == left && 0 <= r < (if right < 0 then -right else right);
    hide Meaning;
    hide Binary;
    hide InRange;
  }

  lemma QuotientInRange(left: int, right: int, kind: Kind)
    requires InRange(left, kind) && InRange(right, kind) && right != 0
    ensures !InRange(left / right, kind) <==> Signed(kind) && left == Range(kind).0 && right == -1
    ensures InRange(left % right, kind)
  {
    QuotientShrinks(left, right);
    var q, r := left / right, left % right;
    assert 0 <= r < (if right < 0 then -right else right);
    assert right == -1 ==> q == -left;
    QuotientFits(left, right, q, r, kind);
  }

  lemma QuotientFits(left: int, right: int, q: int, r: int, kind: Kind)
    requires InRange(left, kind) && InRange(right, kind) && right != 0
    requires 0 <= r < (if right < 0 then -right else right)
    requires right > 0 ==> (left >= 0 ==> 0 <= q <= left) && (left < 0 ==> left <= q < 0)
    requires right < 0 ==> (left >= 0 ==> -left <= q <= 0) && (left < 0 ==> 0 < q <= -left)
    requires right <= -2 && left < 0 ==> 2 * q <= 1 - left
    requires right == -1 ==> q == -left
    ensures !InRange(q, kind) <==> Signed(kind) && left == Range(kind).0 && right == -1
    ensures InRange(r, kind)
  {
  }

  /** Each operator that cannot give a value says why: a zero divisor, a negative
      exponent, one past 32 bits, a shift count outside the width. */
  lemma TrapsSayWhy(left: int, right: int, kind: Kind)
    ensures Binary(Div, left, 0, kind) == Binary(Percent, left, 0, kind) == Failure(DivisionByZero)
    ensures right < 0 ==> Binary(Power, left, right, kind) == Failure(ExponentNegative)
    ensures right > 0xFFFF_FFFF ==> Binary(Power, left, right, kind) == Failure(ExponentTooLarge)
    ensures Binary(Shl, left, right, kind) == Failure(InvalidShiftCount) <==> !(0 <= right < Width(kind))
    ensures Binary(Shr, left, right, kind) == Failure(InvalidShiftCount) <==> !(0 <= right < Width(kind))
  {
    hide Bitwise;
    hide Pow;
    hide Pow2;
  }

  /** `AND`, `OR` and `XOR` never trap, and act on each bit by itself. */
  lemma BitwiseNeverTraps(op: Operator, left: int, right: int, kind: Kind, k: nat)
    requires op in {And, Or, Xor} && InRange(left, kind) && InRange(right, kind)
    ensures var bits := if op == And then AndOp else if op == Or then OrOp else XorOp;
            && Binary(op, left, right, kind).Success?
            && InRange(Binary(op, left, right, kind).value, kind)
            && Bit(Binary(op, left, right, kind).value, k) == OnBits(bits, Bit(left, k), Bit(right, k))
  {
    var bits := if op == And then AndOp else if op == Or then OrOp else XorOp;
    RangeIsWidth(left, kind);
    RangeIsWidth(right, kind);
    if Signed(kind) {
      BitwiseKeepsSigned(bits, left, right, Width(kind));
    } else {
      BitwiseKeepsUnsigned(bits, left, right, Width(kind));
    }
    RangeIsWidth(Bitwise(bits, left, right), kind);
    BitwiseIsPerBit(bits, left, right, k);
  }

  /** The right shift is logical: it shifts the width-bit pattern of the value.
      So it traps on exactly one shape of operand: a negative one shifted by
      nothing, whose pattern is no value of its signed type. */
  lemma RightShiftIsLogical(value: int, count: int, kind: Kind)
    requires InRange(value, kind) && 0 <= count < Width(kind)
    ensures var pattern := if value < 0 then value + Pow2(Width(kind)) else value;
            Binary(Shr, value, count, kind) ==
              if value < 0 && count == 0 then Failure(Overflow) else Success(pattern / Pow2(count))
  {
    hide Pow2;
    hide Bitwise;
    Powers();
    var width := Width(kind);
    var pattern := if value < 0 then value + Pow2(width) else value;
    RangeIsWidth(value, kind);
    Doubles(width);
    LowMask(value % TWO_128, width);
    PatternOf(value, width);
    ShiftedFits(pattern, count, width);
    Pow2Grows(width, 64);
    WrappedFits(pattern / Pow2(count));
    RangeIsWidth(pattern / Pow2(count), kind);
  }

  lemma Doubles(width: nat)
    requires width > 0
    ensures Pow2(width) == 2 * Pow2(width - 1)
  {
  }

  lemma PatternOf(value: int, width: nat)
    requires 0 < width <= 64 && -Pow2(width) <= value < Pow2(width)
    ensures value % TWO_128 % Pow2(width) == if value < 0 then value + Pow2(width) else value
  {
    hide Pow2;
    Powers();
    Pow2Grows(width, 64);
    Pow2Adds(width, 128 - width);
    var p, rest := Pow2(width), Pow2(128 - width);
    if value < 0 {
      Quotient(value, TWO_128, -1, value + TWO_128);
      assert (rest - 1) * p == TWO_128 - p;
      Quotient(value + TWO_128, p, rest - 1, value + p);
    } else {
      Quotient(value, TWO_128, 0, value);
      Quotient(value, p, 0, value);
    }
  }

  lemma ShiftedFits(pattern: int, count: nat, width: nat)
    requires 0 < width && 0 <= pattern < Pow2(width)
    ensures 0 <= pattern / Pow2(count) <= pattern
    ensures count > 0 ==> pattern / Pow2(count) < Pow2(width - 1)
    ensures count == 0 ==> pattern / Pow2(count) == pattern
  {
    assert Pow2(width) == 2 * Pow2(width - 1);
    assert count > 0 ==> Pow2(count) == 2 * Pow2(count - 1);
    QuotientBound(pattern, Pow2(count));
  }

  /** `NOT` yields a value exactly on the signed types, and negation exactly
      where the opposite number is in range. */
  lemma UnaryExact(operand: int, kind: Kind)
    requires InRange(operand, kind)
    ensures Unary(Not, operand, kind) == if Signed(kind) then Success(-operand - 1) else Failure(Overflow)
    ensures Unary(Negate, operand, kind) ==
            if (if Signed(kind) then operand != Range(kind).0 else operand == 0) then Success(-operand)
            else Failure(Overflow)
  {
  }
}
