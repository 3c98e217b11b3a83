// Assembly-level meaning of the handlers, and the theorems that an assembled instruction, dispatched
// through the tables and executed, and in a whole step also fetched and traced, does what it means.

module Semantics {
  import opened Words
  import opened Outcomes
  import opened Formats
  import opened Decoder
  import opened Alu
  import opened Board
  import opened TraceRing
  import opened Machine

  function SetReg(c: CpuState, r: reg, v: u32): CpuState {
    c.(gpr := c.gpr[r := v])
  }

  /** What an instruction means in terms of its operands.  The departures from the RISC-V Unprivileged
      ISA are those of the handlers: bne is beq, branch and jump distances are counted from the next
      instruction and branch offsets are doubled, and rd is written before rs1 is read. */
  function Meaning(mode: Mode, batch: bool, c: CpuState, b: BoardState, i: Instr): Outcome<(CpuState, BoardState)> {
    match i
    case AluInstr(op, rd, rs1, rs2) =>
      if KindOf(op) != AluKind || !DivisionDefined(op, c.gpr[rs1], c.gpr[rs2]) then Dies(Undefined)
      else Ok((SetReg(c, rd, Value(op, c.gpr[rs1], c.gpr[rs2])), b))
    case AluImmInstr(op, rd, rs1, imm) =>
      if KindOf(op) != AluiKind then Dies(Undefined)
      else Ok((SetReg(c, rd, Value(op, c.gpr[rs1], Wrap(imm))), b))
    case LoadInstr(op, rd, rs1, off) =>
      var ea := Wrap(c.gpr[rs1] + off);
      if ea % Width(op) != 0 then Dies(CpuAbort)
      else
        var r :- LoadMem(mode, b, ea, Width(op));
        Ok((SetReg(c, rd, Extend(op, r.1)), r.0))
    case StoreInstr(op, rs1, rs2, off) =>
      var ea := Wrap(c.gpr[rs1] + off);
      if ea % Width(op) != 0 then Dies(CpuAbort)
      else
        var b' :- StoreMem(mode, b, ea, Width(op), c.gpr[rs2], batch);
        Ok((c, b'))
    case BranchInstr(op, rs1, rs2, off) =>
      if Taken(op, c.gpr[rs1], c.gpr[rs2]) then Ok((c.(pc := Wrap(c.pc + 2 * off)), b)) else Ok((c, b))
    case UpperInstr(op, rd, upper) =>
      if op == Lui then Ok((SetReg(c, rd, Wrap(0x1000 * upper)), b))
      else if op == Auipc then Ok((SetReg(c, rd, Wrap(c.pc + 0x1000 * upper)), b))
      else Ok((SetReg(c, rd, Wrap(c.pc + 4)).(pc := Wrap(c.pc + 0x1000 * upper)), b))
    case CsrInstr(op, rd, rs1, n) =>
      if !CsrWrites(op, c.gpr[rd], rs1) then Ok((c, b))
      else
        var c1 := SetReg(c, rd, c.csr[n]);
        var operand: u32 := if CsrImmediate(op) then rs1 else c1.gpr[rs1];
        Ok((c1.(csr := c.csr[n := CsrValue(op, c.csr[n], operand)]), b))
    case JalrInstr(_, rd, rs1) =>
      var c1 := SetReg(c, rd, Wrap(c.pc + 4));
      Ok((c1.(pc := c1.gpr[rs1]), b))
    case PlainInstr(op) =>
      if op == Fence then Ok((c, b))
      else if op == EcallEbreak then Dies(EcallAssert)
      else Ok((c, b.(nemu := NemuEnd)))
  }

  /** The sign of the upper immediate of jal does not matter modulo 2^32. */
  lemma UpperSign(pc: u32, w: u32)
    ensures Wrap(pc + 0x1000 * SUImm20(w)) == Wrap(pc + 0x1000 * UImm20(w))
  {
    Alu.WrapShift(pc + 0x1000 * SUImm20(w), if SUImm20(w) == UImm20(w) then 0 else 1);
  }

  /** Immediates of the reachable arithmetic handlers are zero-extended five-bit values. */
  lemma ReachableImmediate(c: CpuState, w: u32)
    requires w % 4 == 3 && KindOf(Decode(w)) == AluiKind
    ensures Operands(w).AluImmInstr? && 0 <= Operands(w).imm < 64
    ensures !(Decode(w).Srai?) ==> Operands(w).imm == Rs2(w)
    ensures Operand2(c, Decode(w), w) == Operands(w).imm
  {
    hide Dispatch;
    DecodePartition(w);
    ImmFields(w);
  }

  lemma ImmFields(w: u32)
    ensures Imm12(w) == Rs2(w) + 32 * Func7(w)
  {
    var t := w / 0x10_0000;
    assert t == 32 * (t / 32) + t % 32;
    assert w / 0x200_0000 == t / 32;
  }

  lemma AluImmRuns(mode: Mode, batch: bool, c: CpuState, b: BoardState, w: u32)
    requires w % 4 == 3 && KindOf(Decode(w)) == AluiKind
    ensures Execute(mode, batch, c, b, w) == Meaning(mode, batch, c, b, Operands(w))
  {
    hide Value;
    hide Decode;
    hide LoadMem;
    hide StoreMem;
    hide Operand2;
    ReachableImmediate(c, w);
  }

  lemma AluRuns(mode: Mode, batch: bool, c: CpuState, b: BoardState, w: u32)
    requires w % 4 == 3 && KindOf(Decode(w)) == AluKind
    ensures Execute(mode, batch, c, b, w) == Meaning(mode, batch, c, b, Operands(w))
  {
    hide Decode;
    hide LoadMem;
    hide StoreMem;
    hide Value;
  }

  lemma LoadRuns(mode: Mode, batch: bool, c: CpuState, b: BoardState, w: u32)
    requires w % 4 == 3 && KindOf(Decode(w)) == LoadKind
    ensures Execute(mode, batch, c, b, w) == Meaning(mode, batch, c, b, Operands(w))
  {
    hide Decode;
    hide LoadMem;
    hide StoreMem;
    hide Extend;
    hide Width;
  }

  lemma StoreRuns(mode: Mode, batch: bool, c: CpuState, b: BoardState, w: u32)
    requires w % 4 == 3 && KindOf(Decode(w)) == StoreKind
    ensures Execute(mode, batch, c, b, w) == Meaning(mode, batch, c, b, Operands(w))
  {
    hide Decode;
    hide LoadMem;
    hide StoreMem;
    hide Width;
  }

  lemma BranchRuns(mode: Mode, batch: bool, c: CpuState, b: BoardState, w: u32)
    requires w % 4 == 3 && KindOf(Decode(w)) == BranchKind
    ensures Execute(mode, batch, c, b, w) == Meaning(mode, batch, c, b, Operands(w))
  {
    hide Decode;
    hide LoadMem;
    hide StoreMem;
    hide Taken;
    hide BranchImm;
  }

  lemma UpperRuns(mode: Mode, batch: bool, c: CpuState, b: BoardState, w: u32)
    requires w % 4 == 3 && KindOf(Decode(w)) == UpperKind
    ensures Execute(mode, batch, c, b, w) == Meaning(mode, batch, c, b, Operands(w))
  {
    hide Decode;
    hide LoadMem;
    hide StoreMem;
    UpperSign(c.pc, w);
  }

  lemma CsrRuns(mode: Mode, batch: bool, c: CpuState, b: BoardState, w: u32)
    requires w % 4 == 3 && KindOf(Decode(w)) == CsrKind
    ensures Execute(mode, batch, c, b, w) == Meaning(mode, batch, c, b, Operands(w))
  {
    hide Decode;
    hide LoadMem;
    hide StoreMem;
    hide CsrWrites;
    hide CsrValue;
    hide CsrImmediate;
  }

  lemma JalrRuns(mode: Mode, batch: bool, c: CpuState, b: BoardState, w: u32)
    requires w % 4 == 3 && KindOf(Decode(w)) == JalrKind
    ensures Execute(mode, batch, c, b, w) == Meaning(mode, batch, c, b, Operands(w))
  {
    hide Decode;
    hide LoadMem;
    hide StoreMem;
  }

  lemma PlainRuns(mode: Mode, batch: bool, c: CpuState, b: BoardState, w: u32)
    requires w % 4 == 3 && KindOf(Decode(w)) == NoneKind
    ensures Execute(mode, batch, c, b, w) == Meaning(mode, batch, c, b, Operands(w))
  {
    hide Decode;
    hide LoadMem;
    hide StoreMem;
  }

  /** Every word whose low bits are 11 executes as its operands mean. */
  lemma ExecuteIsMeaning(mode: Mode, batch: bool, c: CpuState, b: BoardState, w: u32)
    requires w % 4 == 3
    ensures Execute(mode, batch, c, b, w) == Meaning(mode, batch, c, b, Operands(w))
  {
    hide *;
    match KindOf(Decode(w)) {
      case AluKind => AluRuns(mode, batch, c, b, w);
      case AluiKind => AluImmRuns(mode, batch, c, b, w);
      case LoadKind => LoadRuns(mode, batch, c, b, w);
      case StoreKind => StoreRuns(mode, batch, c, b, w);
      case BranchKind => BranchRuns(mode, batch, c, b, w);
      case CsrKind => CsrRuns(mode, batch, c, b, w);
      case UpperKind => UpperRuns(mode, batch, c, b, w);
      case JalrKind => JalrRuns(mode, batch, c, b, w);
      case NoneKind => PlainRuns(mode, batch, c, b, w);
    }
  }

  /** An assembled instruction, decoded through the tables and executed, does what it means: exactly,
      except that a negative store offset acts as if it were 8192 larger. */
  lemma AssembledExecution(mode: Mode, batch: bool, c: CpuState, b: BoardState, i: Instr)
    requires i.Valid()
    ensures Execute(mode, batch, c, b, Assemble(i)) == Meaning(mode, batch, c, b, Seen(i))
  {
    hide Execute;
    hide Meaning;
    hide Assemble;
    hide Operands;
    DecodeRoundTrip(i);
    ExecuteIsMeaning(mode, batch, c, b, Assemble(i));
  }

  /** The rest of a step, given what its instruction means. */
  function Finish(m: MachineState, w: u32, r: Outcome<(CpuState, BoardState)>): Result {
    var trace := m.trace + [Entry(m.cpu.pc, Some(w))];
    match r
    case Dies(why) => Dead(trace, why)
    case Ok(v) => Live(MachineState(v.0.(pc := Wrap(v.0.pc + 4)), v.1, trace, m.clock + 1))
  }

  /** The step at pc fetches the word w. */
  ghost predicate FetchesWord(mode: Mode, m: MachineState, b: BoardState, w: u32) {
    m.cpu.pc % 4 == 0 && LoadMem(mode, m.board, m.cpu.pc, 4) == Ok((b, w))
  }

  /** A step that fetches a word ending in 11 has the effect of its operands and adds one complete entry. */
  lemma StepIsMeaning(mode: Mode, batch: bool, m: MachineState, b: BoardState, w: u32)
    requires FetchesWord(mode, m, b, w) && w % 4 == 3
    ensures Step(mode, batch, m) == Finish(m, w, Meaning(mode, batch, m.cpu, b, Operands(w)))
  {
    hide Execute;
    hide Meaning;
    hide LoadMem;
    hide Operands;
    ExecuteIsMeaning(mode, batch, m.cpu, b, w);
  }

  /** A step that fetches an assembled instruction does what the instruction means. */
  lemma AssembledStep(mode: Mode, batch: bool, m: MachineState, b: BoardState, i: Instr)
    requires i.Valid() && FetchesWord(mode, m, b, Assemble(i))
    ensures Step(mode, batch, m) == Finish(m, Assemble(i), Meaning(mode, batch, m.cpu, b, Seen(i)))
  {
    hide Step;
    hide Finish;
    hide Meaning;
    hide Assemble;
    hide Operands;
    hide FetchesWord;
    DecodeRoundTrip(i);
    StepIsMeaning(mode, batch, m, b, Assemble(i));
  }

  /** bne branches exactly when beq does. */
  lemma BneIsBeq(mode: Mode, batch: bool, c: CpuState, b: BoardState, rs1: reg, rs2: reg, off: int)
    requires -0x1000 <= off < 0x1000 && off % 2 == 0
    ensures Execute(mode, batch, c, b, Assemble(BranchInstr(Bne, rs1, rs2, off)))
         == Execute(mode, batch, c, b, Assemble(BranchInstr(Beq, rs1, rs2, off)))
  {
    hide Execute;
    hide Assemble;
    AssembledExecution(mode, batch, c, b, BranchInstr(Bne, rs1, rs2, off));
    AssembledExecution(mode, batch, c, b, BranchInstr(Beq, rs1, rs2, off));
  }

  /** jalr and the register CSR handlers if they read rs1 before writing rd. */
  function JalrRs1First(c: CpuState, w: u32): CpuState {
    c.(gpr := c.gpr[Rd(w) := Wrap(c.pc + 4)], pc := c.gpr[Rs1(w)])
  }

  function CsrRs1First(c: CpuState, op: Op, w: u32): CpuState {
    var old_ := c.csr[Imm12(w)];
    if !CsrWrites(op, c.gpr[Rd(w)], Rs1(w)) then c
    else c.(gpr := c.gpr[Rd(w) := old_], csr := c.csr[Imm12(w) := CsrValue(op, old_, c.gpr[Rs1(w)])])
  }

  lemma {:induction false} CombineSelf(n: nat, x: nat)
    requires x < Pow2(n)
    ensures Combine(n, OrOp, x, x) == x && Combine(n, AndNotOp, x, x) == 0
    decreases n
  {
    if n > 0 {
      CombineSelf(n - 1, x / 2);
    }
  }

  /** Writing rd first matters exactly when rd is rs1 and the value written changes the outcome: with
      rd = rs1, csrrs and csrrw leave the CSR alone and csrrc clears it. */
  lemma ReadOrder(c: CpuState, w: u32)
    ensures ExecCsr(c, Csrrw, w) == CsrRs1First(c, Csrrw, w) <==>
              Rd(w) != Rs1(w) || c.gpr[Rd(w)] == 0 || c.gpr[Rs1(w)] == c.csr[Imm12(w)]
    ensures ExecJalr(c, w) == JalrRs1First(c, w) <==> Rd(w) != Rs1(w) || c.gpr[Rs1(w)] == Wrap(c.pc + 4)
    ensures ExecCsr(c, Csrrs, w) == CsrRs1First(c, Csrrs, w) <==>
              Rd(w) != Rs1(w) || Bitwise(OrOp, c.csr[Imm12(w)], c.gpr[Rs1(w)]) == c.csr[Imm12(w)]
    ensures ExecCsr(c, Csrrc, w) == CsrRs1First(c, Csrrc, w) <==>
              Rd(w) != Rs1(w) || Bitwise(AndNotOp, c.csr[Imm12(w)], c.gpr[Rs1(w)]) == 0
  {
    hide Bitwise;
    hide ExecCsr;
    hide CsrRs1First;
    SelfBitwise(c.csr[Imm12(w)]);
    CsrReadOrder(c, Csrrs, w);
    CsrReadOrder(c, Csrrc, w);
    CsrReadOrder(c, Csrrw, w);
  }

  lemma CsrReadOrder(c: CpuState, op: Op, w: u32)
    requires op == Csrrs || op == Csrrc || op == Csrrw
    ensures var old_, r := c.csr[Imm12(w)], c.gpr[Rs1(w)];
            ExecCsr(c, op, w) == CsrRs1First(c, op, w) <==>
              !CsrWrites(op, c.gpr[Rd(w)], Rs1(w)) || Rd(w) != Rs1(w) || CsrValue(op, old_, r) == CsrValue(op, old_, old_)
  {
    hide CsrValue;
    hide CsrWrites;
    hide Rd;
    hide Rs1;
    hide Imm12;
    var old_, r := c.csr[Imm12(w)], c.gpr[Rs1(w)];
    SameUpdate(c.csr, Imm12(w), CsrValue(op, old_, r), CsrValue(op, old_, old_));
  }

  lemma SelfBitwise(x: u32)
    ensures Bitwise(OrOp, x, x) == x && Bitwise(AndNotOp, x, x) == 0
  {
    hide Combine;
    Pow2Values();
    CombineSelf(32, x);
  }

  lemma SameUpdate(s: seq<u32>, n: nat, v: u32, v': u32)
    requires n < |s|
    ensures s[n := v] == s[n := v'] <==> v == v'
  {
    assert s[n := v][n] == v && s[n := v'][n] == v';
  }

  /** A standard immediate instruction that is not a shift reaches its handler exactly for immediates 0
      to 31; every other immediate ends the run in the invalid handler. */
  lemma ImmediateReach(rd: reg, f3: nat, rs1: reg, imm: int)
    requires f3 < 8 && f3 != 1 && f3 != 5 && -0x800 <= imm < 0x800
    ensures var u := if imm < 0 then imm + 0x1000 else imm;
            var w := Word(0x13, rd, f3, rs1, u % 32, u / 32);
            w % 4 == 3 && Decode(w) == if 0 <= imm < 32 then AluiTable0(f3) else Inv
  {
    var u := if imm < 0 then imm + 0x1000 else imm;
    WordFields(0x13, rd, f3, rs1, u % 32, u / 32);
    OpcodeLow(Word(0x13, rd, f3, rs1, u % 32, u / 32));
    assert u / 32 == 0 <==> 0 <= imm < 32;
    assert AluiTable32(f3) == Inv;
  }

  /** The standard encodings of slli and srli reach their handlers; the standard encoding of srai, with func7
      32, is invalid, and srai answers to func7 1 instead. */
  lemma ShiftReach(rd: reg, rs1: reg, shamt: reg)
    ensures Decode(Word(0x13, rd, 1, rs1, shamt, 0)) == Slli
    ensures Decode(Word(0x13, rd, 5, rs1, shamt, 0)) == Srli
    ensures Decode(Word(0x13, rd, 5, rs1, shamt, 32)) == Inv
    ensures Decode(Word(0x13, rd, 5, rs1, shamt, 1)) == Srai
  {
    WordFields(0x13, rd, 1, rs1, shamt, 0);
    WordFields(0x13, rd, 5, rs1, shamt, 0);
    WordFields(0x13, rd, 5, rs1, shamt, 32);
    WordFields(0x13, rd, 5, rs1, shamt, 1);
    hide Word;
    hide Opcode;
    hide Func3;
    hide Func7;
  }
}
