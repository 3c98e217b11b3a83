// Bit-field views of an instruction word (include/cpu/reg.h) and the two immediates
// that exec-handlers.h assembles from them.  A C bitwise-or of fields that occupy different
// bit positions is written as their sum.

module Formats {
  import opened Words

  type reg = x: int | 0 <= x < 32
  type csrno = x: int | 0 <= x < 4096

  function Opcode(w: u32): (r: nat) { w % 0x80 }

  function Rd(w: u32): reg { w / 0x80 % 32 }

  function Func3(w: u32): nat { w / 0x1000 % 8 }

  function Rs1(w: u32): reg { w / 0x8000 % 32 }

  function Rs2(w: u32): reg { w / 0x10_0000 % 32 }

  function Func7(w: u32): nat { w / 0x200_0000 }

  function Imm12(w: u32): csrno { w / 0x10_0000 }

  function SImm12(w: u32): int { if Imm12(w) < 0x800 then Imm12(w) else Imm12(w) - 0x1000 }

  function UImm20(w: u32): nat { w / 0x1000 }

  function SUImm20(w: u32): int { if UImm20(w) < 0x8_0000 then UImm20(w) else UImm20(w) - 0x10_0000 }

  /** STORE_SIMM: the sign bit is an unsigned one-bit field. */
  function StoreImm(w: u32): int {
    w / 0x80 % 32 + 32 * (w / 0x200_0000) + 0x1000 * (w / 0x8000_0000)
  }

  /** BRANCH_SIMM: the sign bit is a signed one-bit field. */
  function BranchImm(w: u32): int {
    2 * (w / 0x100 % 16) + 32 * (w / 0x200_0000 % 64) + 0x800 * (w / 0x80 % 2) - 0x1000 * (w / 0x8000_0000)
  }

  /** The word with the given common fields. */
  function Word(op: nat, rd: nat, f3: nat, rs1: nat, rs2: nat, f7: nat): u32
    requires op < 0x80 && rd < 32 && f3 < 8 && rs1 < 32 && rs2 < 32 && f7 < 0x80
  {
    op + 0x80 * rd + 0x1000 * f3 + 0x8000 * rs1 + 0x10_0000 * rs2 + 0x200_0000 * f7
  }

  lemma WordQuotients(op: nat, rd: nat, f3: nat, rs1: nat, rs2: nat, f7: nat)
    requires op < 0x80 && rd < 32 && f3 < 8 && rs1 < 32 && rs2 < 32 && f7 < 0x80
    ensures var w := Word(op, rd, f3, rs1, rs2, f7);
            && w % 0x80 == op
            && w / 0x80 == rd + 32 * f3 + 256 * rs1 + 0x2000 * rs2 + 0x4_0000 * f7
            && w / 0x1000 == f3 + 8 * rs1 + 256 * rs2 + 8192 * f7
            && w / 0x8000 == rs1 + 32 * rs2 + 1024 * f7
            && w / 0x10_0000 == rs2 + 32 * f7
            && w / 0x200_0000 == f7
  {
    var w := Word(op, rd, f3, rs1, rs2, f7);
    DivModUnique(w, 0x80, rd + 32 * f3 + 256 * rs1 + 0x2000 * rs2 + 0x4_0000 * f7, op);
    DivModUnique(w, 0x1000, f3 + 8 * rs1 + 256 * rs2 + 8192 * f7, op + 0x80 * rd);
    DivModUnique(w, 0x8000, rs1 + 32 * rs2 + 1024 * f7, op + 0x80 * rd + 0x1000 * f3);
    DivModUnique(w, 0x10_0000, rs2 + 32 * f7, op + 0x80 * rd + 0x1000 * f3 + 0x8000 * rs1);
    DivModUnique(w, 0x200_0000, f7, op + 0x80 * rd + 0x1000 * f3 + 0x8000 * rs1 + 0x10_0000 * rs2);
  }

  lemma WordFields(op: nat, rd: nat, f3: nat, rs1: nat, rs2: nat, f7: nat)
    requires op < 0x80 && rd < 32 && f3 < 8 && rs1 < 32 && rs2 < 32 && f7 < 0x80
    ensures var w := Word(op, rd, f3, rs1, rs2, f7);
            && Opcode(w) == op && Rd(w) == rd && Func3(w) == f3 && Rs1(w) == rs1
            && Rs2(w) == rs2 && Func7(w) == f7
            && Imm12(w) == rs2 + 32 * f7 && UImm20(w) == f3 + 8 * rs1 + 256 * rs2 + 8192 * f7
  {
    WordQuotients(op, rd, f3, rs1, rs2, f7);
    hide Word;
    LowPart(32, rd, f3 + 8 * rs1 + 256 * rs2 + 8192 * f7);
    LowPart(8, f3, rs1 + 32 * rs2 + 1024 * f7);
    LowPart(32, rs1, rs2 + 32 * f7);
    LowPart(32, rs2, f7);
  }

  lemma LowPart(d: nat, x: nat, q: nat)
    requires x < d
    ensures (x + d * q) % d == x
  {
    DivModUnique(x + d * q, d, q, x);
  }

  lemma FieldsWord(w: u32)
    ensures Func7(w) < 0x80
    ensures w == Word(Opcode(w), Rd(w), Func3(w), Rs1(w), Rs2(w), Func7(w))
  {
    assert w / 0x1000 == w / 0x80 / 32;
    assert w / 0x8000 == w / 0x1000 / 8;
    assert w / 0x10_0000 == w / 0x8000 / 32;
    assert w / 0x200_0000 == w / 0x10_0000 / 32;
  }

  /** imm[4:1|11] of a 13-bit offset, the value of the rd position. */
  function BranchRd(u: nat): (r: nat)
    ensures r < 32
  {
    2 * (u / 2 % 16) + u / 0x800 % 2
  }

  /** imm[12|10:5] of a 13-bit offset, the value of the func7 position. */
  function BranchF7(u: nat): (r: nat)
    ensures u < 0x2000 ==> r < 0x80
  {
    u / 0x20 % 64 + 64 * (u / 0x1000)
  }

  /** Section 2.3 of the RISC-V Unprivileged ISA: the B-type placement of an even offset. */
  function BranchWord(op: nat, f3: nat, rs1: reg, rs2: reg, off: int): u32
    requires op < 0x80 && f3 < 8 && -0x1000 <= off < 0x1000
  {
    var u := if off < 0 then off + 0x2000 else off;
    Word(op, BranchRd(u), f3, rs1, rs2, BranchF7(u))
  }

  /** Section 2.3 of the RISC-V Unprivileged ISA: the S-type placement of an offset. */
  function StoreWord(op: nat, f3: nat, rs1: reg, rs2: reg, off: int): u32
    requires op < 0x80 && f3 < 8 && -0x800 <= off < 0x800
  {
    var u := if off < 0 then off + 0x1000 else off;
    Word(op, u % 32, f3, rs1, rs2, u / 32)
  }

  /** BRANCH_SIMM reads back exactly the standard B-immediate. */
  lemma BranchImmStandard(op: nat, f3: nat, rs1: reg, rs2: reg, off: int)
    requires op < 0x80 && f3 < 8 && -0x1000 <= off < 0x1000 && off % 2 == 0
    ensures BranchImm(BranchWord(op, f3, rs1, rs2, off)) == off
  {
    var u := if off < 0 then off + 0x2000 else off;
    hide BranchImm;
    hide BranchRd;
    hide BranchF7;
    hide Word;
    hide Rd;
    hide Func7;
    WordFields(op, BranchRd(u), f3, rs1, rs2, BranchF7(u));
    BranchFieldsRead(BranchWord(op, f3, rs1, rs2, off), u);
    assert u / 0x1000 == if off < 0 then 1 else 0;
  }

  lemma BranchFieldsRead(w: u32, u: nat)
    requires u < 0x2000 && u % 2 == 0 && Rd(w) == BranchRd(u) && Func7(w) == BranchF7(u)
    ensures BranchImm(w) == u - 0x2000 * (u / 0x1000)
  {
    hide BranchImm;
    hide Rd;
    hide Func7;
    BranchImmFields(w);
    HalfDouble(u / 2 % 16, u / 0x800 % 2, 2);
    HalfDouble(u / 0x1000, u / 0x20 % 64, 64);
    BranchParts(u);
  }

  lemma HalfDouble(a: nat, b: nat, d: nat)
    requires b < d
    ensures (d * a + b) / d == a && (d * a + b) % d == b
  {
    DivModUnique(d * a + b, d, a, b);
  }

  lemma BranchImmFields(w: u32)
    ensures BranchImm(w) == 2 * (Rd(w) / 2) + 32 * (Func7(w) % 64) + 0x800 * (Rd(w) % 2) - 0x1000 * (Func7(w) / 64)
  {
    FieldParts(w);
  }

  /** Sub-fields of the destination and func7 positions. */
  lemma FieldParts(w: u32)
    ensures w / 0x80 % 2 == Rd(w) % 2 && w / 0x100 % 16 == Rd(w) / 2
    ensures w / 0x8000_0000 == Func7(w) / 64
  {
    var t := w / 0x80;
    assert w / 0x100 == t / 2;
    assert t == 32 * (t / 32) + t % 32;
    assert w / 0x8000_0000 == w / 0x200_0000 / 64;
  }

  lemma BranchParts(u: int)
    requires 0 <= u < 0x2000 && u % 2 == 0
    ensures u == 2 * (u / 2 % 16) + 32 * (u / 0x20 % 64) + 0x800 * (u / 0x800 % 2) + 0x1000 * (u / 0x1000)
  {
    assert u / 0x20 == u / 2 / 16;
    assert u / 0x800 == u / 0x20 / 64;
    assert u / 0x1000 == u / 0x800 / 2;
  }

  /** STORE_SIMM is the standard S-immediate for non-negative offsets and 8192 too large
      for negative ones. */
  lemma StoreImmStandard(op: nat, f3: nat, rs1: reg, rs2: reg, off: int)
    requires op < 0x80 && f3 < 8 && -0x800 <= off < 0x800
    ensures StoreImm(StoreWord(op, f3, rs1, rs2, off)) == if off >= 0 then off else off + 8192
  {
    var u := if off < 0 then off + 0x1000 else off;
    var w := StoreWord(op, f3, rs1, rs2, off);
    WordFields(op, u % 32, f3, rs1, rs2, u / 32);
    hide StoreImm;
    hide Rd;
    hide Func7;
    hide Word;
    StoreImmFields(w);
    StoreParts(u);
  }

  lemma StoreImmFields(w: u32)
    ensures StoreImm(w) == Rd(w) + 32 * Func7(w) + 0x1000 * (Func7(w) / 64)
  {
    FieldParts(w);
  }

  lemma StoreParts(u: nat)
    requires u < 0x1000
    ensures u % 32 + 32 * (u / 32) == u && u / 32 / 64 == if u < 0x800 then 0 else 1
  {
  }
}
