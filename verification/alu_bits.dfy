// What the logical and shift handlers do to individual bits.

module AluBits {
  import opened Words
  import opened Decoder
  import opened Alu

  lemma AndValue(a: u32, b: u32)
    ensures Value(And, a, b) == Bitwise(AndOp, a, b)
  {
    hide Bitwise;
  }

  lemma OrValue(a: u32, b: u32)
    ensures Value(Or, a, b) == Bitwise(OrOp, a, b)
  {
    hide Bitwise;
  }

  lemma XorValue(a: u32, b: u32)
    ensures Value(Xor, a, b) == Bitwise(XorOp, a, b)
  {
    hide Bitwise;
  }

  lemma BitwiseBit(f: BitOp, a: u32, b: u32, k: nat)
    requires k < 32
    ensures Bit(Bitwise(f, a, b), k) == f.On(Bit(a, k), Bit(b, k))
  {
    hide Bit;
    CombineBit(32, f, a, b, k);
  }

  /** and works bit by bit. */
  lemma AndBits(a: u32, b: u32, k: nat)
    requires k < 32
    ensures Bit(Value(And, a, b), k) == (Bit(a, k) && Bit(b, k))
  {
    hide Value;
    AndValue(a, b);
    BitwiseBit(AndOp, a, b, k);
  }

  /** or works bit by bit. */
  lemma OrBits(a: u32, b: u32, k: nat)
    requires k < 32
    ensures Bit(Value(Or, a, b), k) == (Bit(a, k) || Bit(b, k))
  {
    hide Value;
    OrValue(a, b);
    BitwiseBit(OrOp, a, b, k);
  }

  /** xor works bit by bit. */
  lemma XorBits(a: u32, b: u32, k: nat)
    requires k < 32
    ensures Bit(Value(Xor, a, b), k) == (Bit(a, k) != Bit(b, k))
  {
    hide Value;
    XorValue(a, b);
    BitwiseBit(XorOp, a, b, k);
  }

  lemma HalfDiv(x: nat, p: int)
    requires p > 0
    ensures x / (2 * p) == x / 2 / p
  {
    var h := x / 2;
    assert h == p * (h / p) + h % p;
    DivModUnique(x, 2 * p, h / p, 2 * (h % p) + x % 2);
  }

  lemma {:induction false} DivBits(x: nat, n: nat, k: nat)
    ensures x / Pow2(n) >= 0 && Bit(x / Pow2(n), k) == Bit(x, n + k)
    decreases n
  {
    DivLe(x, Pow2(n));
    if n > 0 {
      HalfDiv(x, Pow2(n - 1));
      DivBits(x / 2, n - 1, k);
    }
  }

  lemma {:induction false} MulBits(x: nat, n: nat, k: nat)
    ensures x * Pow2(n) >= 0 && Bit(x * Pow2(n), k) == (k >= n && Bit(x, k - n))
    decreases n
  {
    if n > 0 {
      var y := x * Pow2(n - 1);
      assert x * Pow2(n) == 2 * y by { assert x * (2 * Pow2(n - 1)) == 2 * (x * Pow2(n - 1)); }
      if k > 0 {
        MulBits(x, n - 1, k - 1);
        assert 2 * y / 2 == y;
      }
    }
  }

  lemma {:induction false} ModBits(x: nat, n: nat, k: nat)
    requires k < n
    ensures Bit(x % Pow2(n), k) == Bit(x, k)
    decreases k
  {
    assert Pow2(n) == 2 * Pow2(n - 1);
    hide Pow2;
    HalfMod(x, Pow2(n - 1));
    if k > 0 {
      ModBits(x / 2, n - 1, k - 1);
      assert x % Pow2(n) / 2 == x / 2 % Pow2(n - 1);
    }
  }

  /** Bits of a word split at bit m. */
  lemma SplitBits(v: nat, m: nat, q: nat, k: nat)
    requires v < Pow2(m)
    ensures v + Pow2(m) * q >= 0 && Bit(v + Pow2(m) * q, k) == if k < m then Bit(v, k) else Bit(q, k - m)
  {
    hide Bit;
    hide Pow2;
    var x := v + Pow2(m) * q;
    DivModUnique(x, Pow2(m), q, v);
    if k < m { ModBits(x, m, k); } else { DivBits(x, m, k - m); }
  }

  lemma {:induction false} ZeroBit(k: nat)
    ensures !Bit(0, k)
    decreases k
  {
    if k > 0 { ZeroBit(k - 1); }
  }

  lemma {:induction false} OnesBit(n: nat, k: nat)
    requires k < n
    ensures Bit(Pow2(n) - 1, k)
    decreases k
  {
    assert Pow2(n) == 2 * Pow2(n - 1);
    if k > 0 {
      OnesBit(n - 1, k - 1);
      assert (2 * Pow2(n - 1) - 1) / 2 == Pow2(n - 1) - 1;
    }
  }

  /** Copying bit m of an (m+1)-bit value into every higher bit of a word. */
  lemma SignBits(v: nat, m: nat, k: nat)
    requires m < 32 && v < Pow2(m + 1) && k < 32
    ensures var x := if v < Pow2(m) then v else v + Pow2(m + 1) * (Pow2(31 - m) - 1);
            x >= 0 && Bit(x, k) == Bit(v, if k < m then k else m)
  {
    assert Pow2(m + 1) == 2 * Pow2(m);
    var lo, s := v % Pow2(m), if v < Pow2(m) then 0 else 1;
    if v < Pow2(m) {
      DivModUnique(v, Pow2(m), 0, v);
    } else {
      DivModUnique(v, Pow2(m), 1, v - Pow2(m));
    }
    SplitBits(lo, m, s, if k < m then k else m);
    assert v == lo + Pow2(m) * s;
    if v < Pow2(m) {
      SplitBits(v, m, 0, k);
      ZeroBit(if k < m then 0 else k - m);
    } else {
      SplitBits(v, m + 1, Pow2(31 - m) - 1, k);
      if k > m { OnesBit(31 - m, k - m - 1); }
      if k < m { SplitBits(lo, m, 1, k); }
    }
  }

  /** A logical right shift moves bits down and fills with zeros; a left shift moves bits up and drops
      those past bit 31. */
  lemma ShiftBits(a: u32, b: u32, k: nat)
    requires k < 32
    ensures Bit(Value(Srl, a, b), k) == Bit(a, b % 32 + k)
    ensures Bit(Value(Sll, a, b), k) == (k >= b % 32 && Bit(a, k - b % 32))
  {
    hide Bit;
    hide Pow2;
    DivBits(a, b % 32, k);
    MulBits(a, b % 32, k);
    Pow2Values();
    ModBits(a * Pow2(b % 32), 32, k);
  }

  /** An arithmetic right shift is division rounding toward minus infinity. */
  lemma ArithmeticShift(a: u32, b: u32)
    ensures var r, p := Signed(Value(Sra, a, b)), Pow2(b % 32);
            r * p <= Signed(a) < (r + 1) * p
  {
    hide Pow2;
    var x, p := Signed(a), Pow2(b % 32);
    var q := x / p;
    assert x == p * q + x % p;
    FloorRange(x, p);
    SignedWrap(q);
    assert (q + 1) * p == q * p + p;
  }

  /** add with its carry, which sltu of the sum and an operand gives, is the exact sum; sub with its borrow,
      which sltu of the operands gives, is the exact difference. */
  lemma CarryAndBorrow(a: u32, b: u32)
    ensures Value(Add, a, b) + TWO32 * Value(Sltu, Value(Add, a, b), a) == a + b
    ensures Value(Sub, a, b) == a - b + TWO32 * Value(Sltu, a, b)
  {
    hide Bitwise;
    hide ShiftLeft;
    hide ShiftRight;
    hide ShiftRightArith;
  }

  /** The register form of an immediate handler. */
  function RegisterForm(op: Op): (r: Op)
    requires KindOf(op) == AluiKind
    ensures KindOf(r) == AluKind
  {
    match op
    case Addi => Add
    case Slti => Slt
    case Sltiu => Sltu
    case Xori => Xor
    case Ori => Or
    case Andi => And
    case Slli => Sll
    case Srli => Srl
    case Srai => Sra
  }

  /** Every immediate handler computes what its register form computes. */
  lemma ImmediateForm(op: Op, a: u32, b: u32)
    requires KindOf(op) == AluiKind
    ensures DivisionDefined(op, a, b) && DivisionDefined(RegisterForm(op), a, b)
    ensures Value(op, a, b) == Value(RegisterForm(op), a, b)
  {
    hide Bitwise;
    hide ShiftLeft;
    hide ShiftRight;
    hide ShiftRightArith;
  }

  lemma SignFlip(a: u32, b: u32)
    ensures Signed(a) < Signed(b) <==> Wrap(a + 0x8000_0000) < Wrap(b + 0x8000_0000)
  {
  }

  /** Both comparisons are transitive. */
  lemma CompareTransitive(a: u32, b: u32, c: u32)
    ensures Value(Slt, a, b) == 1 && Value(Slt, b, c) == 1 ==> Value(Slt, a, c) == 1
    ensures Value(Sltu, a, b) == 1 && Value(Sltu, b, c) == 1 ==> Value(Sltu, a, c) == 1
  {
    hide Bitwise;
    hide ShiftLeft;
    hide ShiftRight;
    hide ShiftRightArith;
  }

  lemma FloorRange(x: int, p: int)
    requires p > 0 && -0x8000_0000 <= x < 0x8000_0000
    ensures -0x8000_0000 <= x / p < 0x8000_0000
  {
    if x >= 0 {
      DivLe(x, p);
    } else {
      var r := -x - 1;
      DivLe(r, p);
      assert r == p * (r / p) + r % p;
      DivModUnique(x, p, -(r / p) - 1, p - 1 - r % p);
    }
  }

  /** sub undoes add; both comparisons are total and asymmetric, and slt is sltu with the sign bits
      flipped. */
  lemma AddSubCompare(a: u32, b: u32)
    ensures Value(Sub, Value(Add, a, b), b) == a
    ensures Value(Slt, a, b) + Value(Slt, b, a) == if a == b then 0 else 1
    ensures Value(Sltu, a, b) + Value(Sltu, b, a) == if a == b then 0 else 1
    ensures Value(Slt, a, b) == Value(Sltu, Wrap(a + 0x8000_0000), Wrap(b + 0x8000_0000))
  {
    SignFlip(a, b);
    hide Bitwise;
    hide ShiftLeft;
    hide ShiftRight;
    hide ShiftRightArith;
  }
}
