// The values the register-register and register-immediate handlers compute.

module Alu {
  import opened Words
  import opened Decoder

  const TWO64: int := 0x1_0000_0000_0000_0000

  /** C division, which truncates toward zero. */
  function TruncDiv(n: int, d: int): int
    requires d != 0
  {
    if n >= 0 then n / d else -((-n) / d)
  }

  /** C remainder, which takes the sign of the dividend. */
  function TruncRem(n: int, d: int): int
    requires d != 0
  {
    if n >= 0 then n % d else -((-n) % d)
  }

  /** The value of `(int64_t)x` for a uint64_t expression. */
  function Int64(x: int): int {
    var u := x % TWO64;
    if u < TWO64 / 2 then u else u - TWO64
  }

  /** C leaves a zero divisor and INT_MIN / -1 undefined. */
  predicate DivisionDefined(op: Op, a: u32, b: u32) {
    match op
    case Div | Rem => b != 0 && !(a == 0x8000_0000 && b == 0xFFFF_FFFF)
    case Divu | Remu => b != 0
    case _ => true
  }

  /** The value a register or immediate handler writes to rd, for operands a and b. */
  function Value(op: Op, a: u32, b: u32): u32
    requires KindOf(op) == AluKind || KindOf(op) == AluiKind
    requires DivisionDefined(op, a, b)
  {
    match op
    case Add | Addi => Wrap(a + b)
    case Sub => Wrap(a - b)
    case And | Andi => Bitwise(AndOp, a, b)
    case Or | Ori => Bitwise(OrOp, a, b)
    case Xor | Xori => Bitwise(XorOp, a, b)
    case Slt | Slti => if Signed(a) < Signed(b) then 1 else 0
    case Sltu | Sltiu => if a < b then 1 else 0
    case Sll | Slli => ShiftLeft(a, b % 32)
    case Srl | Srli => ShiftRight(a, b % 32)
    case Sra | Srai => ShiftRightArith(a, b % 32)
    case Mul => Wrap(Signed(a) * Signed(b))
    case Mulh => Wrap(Signed(a) * Signed(b) / TWO32)
    case Mulhu => Wrap(a * b / TWO32)
    case Mulhsu => Wrap(Int64(Signed(a) * b) / TWO32)
    case Div => Wrap(TruncDiv(Signed(a), Signed(b)))
    case Rem => Wrap(TruncRem(Signed(a), Signed(b)))
    case Divu => Wrap(a / b)
    case Remu => Wrap(a % b)
    case _ => 0
  }

  /** The high word of p joined with its low word is p, read as signed or unsigned. */
  lemma JoinHighLow(p: int)
    ensures -0x8000_0000 * TWO32 <= p < 0x8000_0000 * TWO32 ==> Signed(Wrap(p / TWO32)) * TWO32 + Wrap(p) == p
    ensures 0 <= p < TWO32 * TWO32 ==> Wrap(p / TWO32) * TWO32 + Wrap(p) == p
  {
    assert p == TWO32 * (p / TWO32) + p % TWO32;
  }

  lemma ProductBounds(x: int, y: int, lo: int, hi: int, m: int)
    requires lo <= 0 <= hi && lo <= x <= hi && 0 <= y <= m
    ensures lo * m <= x * y <= hi * m
  {
    if x >= 0 {
      assert x * y <= x * m by { assert x * (m - y) >= 0; }
      assert x * m <= hi * m by { assert (hi - x) * m >= 0; }
      assert lo * m <= 0 by { assert (-lo) * m >= 0; }
    } else {
      assert x * m <= x * y by { assert (-x) * (m - y) >= 0; }
      assert lo * m <= x * m by { assert (x - lo) * m >= 0; }
      assert hi * m >= 0;
      assert (-x) * y >= 0;
    }
  }

  lemma SignedProductBound(a: u32, b: u32)
    ensures -0x4000_0000_0000_0000 <= Signed(a) * Signed(b) <= 0x4000_0000_0000_0000
  {
    var x, y := Signed(a), Signed(b);
    if y >= 0 {
      ProductBounds(x, y, -0x8000_0000, 0x8000_0000, 0x8000_0000);
    } else {
      ProductBounds(x, -y, -0x8000_0000, 0x8000_0000, 0x8000_0000);
      assert x * (-y) == -(x * y);
    }
  }

  /** mulh and mul together are the exact signed product
      (section 7.1 of the RISC-V Unprivileged ISA). */
  lemma MulhMulSigned(a: u32, b: u32)
    ensures Signed(Value(Mulh, a, b)) * TWO32 + Value(Mul, a, b) == Signed(a) * Signed(b)
  {
    SignedProductBound(a, b);
    JoinHighLow(Signed(a) * Signed(b));
  }

  /** The signed and the unsigned product differ by the sign corrections. */
  lemma SignCorrections(a: u32, b: u32)
    ensures Signed(a) * Signed(b) == a * b
                                     - TWO32 * ((if Signed(a) < 0 then b else 0) + (if Signed(b) < 0 then a else 0))
                                     + (if Signed(a) < 0 && Signed(b) < 0 then TWO32 * TWO32 else 0)
  {
    var x, y := Signed(a), Signed(b);
    if x < 0 && y < 0 {
      assert (a - TWO32) * (b - TWO32) == a * b - TWO32 * (a + b) + TWO32 * TWO32;
    } else if x < 0 {
      assert (a - TWO32) * b == a * b - TWO32 * b;
    } else if y < 0 {
      assert a * (b - TWO32) == a * b - TWO32 * a;
    }
  }

  lemma WrapShift(p: int, k: int)
    ensures Wrap(p + TWO32 * k) == Wrap(p)
    ensures (p + TWO32 * k) / TWO32 == p / TWO32 + k
  {
    DivModUnique(p + TWO32 * k, TWO32, p / TWO32 + k, p % TWO32);
  }

  function Corrections(a: u32, b: u32): int {
    (if Signed(a) < 0 then b else 0) + (if Signed(b) < 0 then a else 0)
  }

  /** mulhu and mul together are the exact unsigned product. */
  lemma MulhuMulUnsigned(a: u32, b: u32)
    ensures Value(Mulhu, a, b) * TWO32 + Value(Mul, a, b) == a * b
  {
    ProductBounds(a, b, 0, TWO32 - 1, TWO32 - 1);
    JoinHighLow(a * b);
    SignCorrections(a, b);
    WrapShift(a * b, -Corrections(a, b) + (if Signed(a) < 0 && Signed(b) < 0 then TWO32 else 0));
  }

  /** The mixed product never leaves the int64 range, so its uint64 detour is exact. */
  lemma MixedProductExact(a: u32, b: u32)
    ensures Int64(Signed(a) * b) == Signed(a) * b
    ensures -0x8000_0000 * TWO32 <= Signed(a) * b < 0x8000_0000 * TWO32
  {
    ProductBounds(Signed(a), b, -0x8000_0000, 0x7FFF_FFFF, TWO32 - 1);
    var p := Signed(a) * b;
    if p < 0 {
      DivModUnique(p, TWO64, -1, p + TWO64);
    } else {
      DivModUnique(p, TWO64, 0, p);
    }
  }

  /** mulhsu and mul together are the exact signed-by-unsigned product. */
  lemma MulhsuMulMixed(a: u32, b: u32)
    ensures Signed(Value(Mulhsu, a, b)) * TWO32 + Value(Mul, a, b) == Signed(a) * b
  {
    MixedProductExact(a, b);
    var p := Signed(a) * b;
    JoinHighLow(p);
    if Signed(b) < 0 {
      assert Signed(a) * (b - TWO32) == p - TWO32 * Signed(a);
      WrapShift(p, -Signed(a));
    }
  }

  /** mulh is mulhu less the two sign corrections, modulo 2^32. */
  lemma MulhFromMulhu(a: u32, b: u32)
    ensures Value(Mulh, a, b) == Wrap(Value(Mulhu, a, b) - Corrections(a, b))
  {
    SignCorrections(a, b);
    UnsignedHigh(a, b);
    HighWord(a * b, Corrections(a, b), if Signed(a) < 0 && Signed(b) < 0 then 1 else 0);
  }

  lemma UnsignedHigh(a: u32, b: u32)
    ensures Value(Mulhu, a, b) == a * b / TWO32
  {
    ProductBounds(a, b, 0, TWO32 - 1, TWO32 - 1);
  }

  lemma HighWord(p: int, c: int, k: int)
    ensures Wrap((p - TWO32 * c + TWO32 * TWO32 * k) / TWO32) == Wrap(p / TWO32 - c)
  {
    WrapShift(p, -c + TWO32 * k);
    WrapShift(p / TWO32 - c, k);
  }

  /** div and rem (divu and remu) of the same operands are quotient and remainder
      (section 7.2 of the RISC-V Unprivileged ISA). */
  lemma DivisionPair(a: u32, b: u32)
    requires b != 0
    ensures DivisionDefined(Div, a, b) ==>
              var q, r := Signed(Value(Div, a, b)), Signed(Value(Rem, a, b));
              && Signed(a) == q * Signed(b) + r
              && (r < 0 ==> Signed(a) < 0) && (r > 0 ==> Signed(a) > 0)
              && (if r < 0 then -r else r) < (if Signed(b) < 0 then -Signed(b) else Signed(b))
    ensures var q, r := Value(Divu, a, b), Value(Remu, a, b);
            a == q * b + r && r < b
  {
    UnsignedPair(a, b);
    if DivisionDefined(Div, a, b) {
      SignedPair(a, b);
    }
  }

  lemma UnsignedPair(a: u32, b: u32)
    requires b != 0
    ensures var q, r := Value(Divu, a, b), Value(Remu, a, b);
            a == q * b + r && r < b
  {
    UnsignedValues(a, b);
    hide Value;
    assert a == b * (a / b) + a % b;
  }

  lemma UnsignedValues(a: u32, b: u32)
    requires b != 0
    ensures Value(Divu, a, b) == a / b && Value(Remu, a, b) == a % b
  {
    DivLe(a, b);
  }

  lemma SignedPair(a: u32, b: u32)
    requires DivisionDefined(Div, a, b)
    ensures Signed(Value(Div, a, b)) == TruncDiv(Signed(a), Signed(b))
    ensures Signed(Value(Rem, a, b)) == TruncRem(Signed(a), Signed(b))
    ensures Signed(a) == Signed(Value(Div, a, b)) * Signed(b) + Signed(Value(Rem, a, b))
    ensures TruncRem(Signed(a), Signed(b)) < 0 ==> Signed(a) < 0
    ensures TruncRem(Signed(a), Signed(b)) > 0 ==> Signed(a) > 0
    ensures -(if Signed(b) < 0 then -Signed(b) else Signed(b)) < TruncRem(Signed(a), Signed(b)) < (if Signed(b) < 0 then -Signed(b) else Signed(b))
  {
    TruncPair(Signed(a), Signed(b));
    TruncRange(Signed(a), Signed(b));
    TruncRemRange(Signed(a), Signed(b));
    SignedWrap(TruncDiv(Signed(a), Signed(b)));
    SignedWrap(TruncRem(Signed(a), Signed(b)));
  }

  lemma SignedWrap(x: int)
    requires -0x8000_0000 <= x < 0x8000_0000
    ensures Signed(Wrap(x)) == x
  {
  }

  lemma TruncPair(n: int, d: int)
    requires d != 0
    ensures n == TruncDiv(n, d) * d + TruncRem(n, d)
    ensures TruncRem(n, d) < 0 ==> n < 0
    ensures TruncRem(n, d) > 0 ==> n > 0
    ensures -(if d < 0 then -d else d) < TruncRem(n, d) < (if d < 0 then -d else d)
  {
    if n >= 0 {
      assert n == d * (n / d) + n % d;
    } else {
      assert -n == d * ((-n) / d) + (-n) % d;
      assert TruncDiv(n, d) * d == -(d * ((-n) / d));
    }
    if n == 0 { DivModUnique(0, if d < 0 then -d else d, 0, 0); assert 0 % d == 0; }
  }

  lemma DivLt(m: nat, e: int)
    requires m >= 1 && e >= 2
    ensures 0 <= m / e < m
  {
    DivLe(m, e);
    var q := m / e;
    assert m == e * q + m % e;
    assert e * q == 2 * q + (e - 2) * q;
    assert (e - 2) * q >= 0;
  }

  /** The quotient fits an int32_t unless it is INT_MIN / -1. */
  lemma TruncRange(n: int, d: int)
    requires -0x8000_0000 <= n < 0x8000_0000 && -0x8000_0000 <= d < 0x8000_0000 && d != 0
    requires !(n == -0x8000_0000 && d == -1)
    ensures -0x8000_0000 <= TruncDiv(n, d) < 0x8000_0000
  {
    var m, e := if n < 0 then -n else n, if d < 0 then -d else d;
    DivLe(m, e);
    if m >= 1 && e >= 2 { DivLt(m, e); }
    assert m / d == if d < 0 then -(m / e) else m / e;
  }

  lemma TruncRemRange(n: int, d: int)
    requires -0x8000_0000 <= n < 0x8000_0000 && -0x8000_0000 <= d < 0x8000_0000 && d != 0
    ensures -0x8000_0000 <= TruncRem(n, d) < 0x8000_0000
  {
    TruncPair(n, d);
  }
}
