// Exactly where the code departs from the RISC-V Unprivileged ISA, and where the two agree.

module Departures {
  import opened Words
  import opened Outcomes
  import opened Formats
  import opened Decoder
  import opened Alu
  import opened Board
  import opened Machine
  import opened Semantics
  import opened Loader
  import opened Boot
  import Runs

  lemma WrapEqual(x: int, y: int)
    requires -TWO32 < x - y < TWO32
    ensures Wrap(x) == Wrap(y) <==> x == y
  {
  }

  lemma WrapSum(x: int, d: int)
    ensures Wrap(Wrap(x) + d) == Wrap(x + d)
  {
    Alu.WrapShift(Wrap(x) + d, x / TWO32);
  }

  /** The step stays alive and continues at pc. */
  predicate ContinuesAt(r: Result, pc: u32) {
    r.Live? && r.m.cpu.pc == pc
  }

  // Branches.

  /** The condition of section 2.5 of the RISC-V Unprivileged ISA, by way of the set-less-than operations. */
  predicate StandardTaken(op: Op, a: u32, b: u32)
    requires KindOf(op) == BranchKind
  {
    match op
    case Beq => a == b
    case Bne => a != b
    case Blt => Value(Slt, a, b) == 1
    case Bge => Value(Slt, a, b) == 0
    case Bltu => Value(Sltu, a, b) == 1
    case Bgeu => Value(Sltu, a, b) == 0
  }

  lemma TakenIsStandard(op: Op, a: u32, b: u32)
    requires KindOf(op) == BranchKind && op != Bne
    ensures Taken(op, a, b) == StandardTaken(op, a, b)
  {
    hide Bitwise;
    hide ShiftLeft;
    hide ShiftRight;
    hide ShiftRightArith;
  }

  /** The pc after a branch in the ISA. */
  function StandardBranch(i: Instr, c: CpuState): u32
    requires i.BranchInstr? && KindOf(i.op) == BranchKind
  {
    if StandardTaken(i.op, c.gpr[i.rs1], c.gpr[i.rs2]) then Wrap(c.pc + i.off) else Wrap(c.pc + 4)
  }

  /** The pc after a branch here: the offset is doubled and counted from the next instruction. */
  function BranchNext(i: Instr, c: CpuState): u32
    requires i.BranchInstr?
  {
    if Taken(i.op, c.gpr[i.rs1], c.gpr[i.rs2]) then Wrap(c.pc + 4 + 2 * i.off) else Wrap(c.pc + 4)
  }

  lemma BranchTarget(mode: Mode, batch: bool, m: MachineState, b: BoardState, i: Instr)
    requires i.Valid() && i.BranchInstr? && FetchesWord(mode, m, b, Assemble(i))
    ensures ContinuesAt(Step(mode, batch, m), BranchNext(i, m.cpu))
  {
    hide Step;
    hide Assemble;
    hide FetchesWord;
    hide Wrap;
    hide Taken;
    AssembledStep(mode, batch, m, b, i);
    WrapSum(m.cpu.pc + 2 * i.off, 4);
  }

  /** A branch goes where the ISA sends it exactly when it is not taken or its offset is -4; a bne, exactly
      when its offset is 0 on equal registers and 4 on different ones. */
  lemma BranchAgrees(i: Instr, c: CpuState)
    requires i.Valid() && i.BranchInstr?
    ensures var x, y := c.gpr[i.rs1], c.gpr[i.rs2];
            BranchNext(i, c) == StandardBranch(i, c) <==>
              if i.op == Bne then i.off == (if x == y then 0 else 4)
              else StandardTaken(i.op, x, y) ==> i.off == -4
  {
    hide Wrap;
    hide Value;
    if i.op != Bne { TakenIsStandard(i.op, c.gpr[i.rs1], c.gpr[i.rs2]); }
    WrapEqual(c.pc + 4 + 2 * i.off, c.pc + i.off);
    WrapEqual(c.pc + 4 + 2 * i.off, c.pc + 4);
    WrapEqual(c.pc + 4, c.pc + i.off);
  }

  // Jumps.

  /** The J-immediate of section 2.3 of the RISC-V Unprivileged ISA. */
  function JImm(w: u32): int {
    0x1000 * (w / 0x1000 % 256) + 0x800 * (w / 0x10_0000 % 2) + 2 * (w / 0x20_0000 % 1024) - 0x10_0000 * (w / 0x8000_0000)
  }

  /** The pc after a jal here. */
  function JalNext(pc: u32, w: u32): u32 {
    Wrap(pc + 4 + 0x1000 * UImm20(w))
  }

  lemma JalOperands(w: u32)
    requires Decode(w) == Jal
    ensures Operands(w) == UpperInstr(Jal, Rd(w), UImm20(w))
  {
  }

  lemma JalMeaning(mode: Mode, batch: bool, c: CpuState, b: BoardState, rd: reg, upper: nat)
    ensures Meaning(mode, batch, c, b, UpperInstr(Jal, rd, upper)) ==
            Ok((SetReg(c, rd, Wrap(c.pc + 4)).(pc := Wrap(c.pc + 0x1000 * upper)), b))
  {
    hide Wrap;
  }

  lemma JalTarget(mode: Mode, batch: bool, m: MachineState, b: BoardState, w: u32)
    requires FetchesWord(mode, m, b, w) && w % 4 == 3 && Decode(w) == Jal
    ensures ContinuesAt(Step(mode, batch, m), JalNext(m.cpu.pc, w))
  {
    hide Step;
    hide FetchesWord;
    hide Wrap;
    hide UImm20;
    hide Rd;
    hide Meaning;
    hide Operands;
    hide Decode;
    JalOperands(w);
    JalMeaning(mode, batch, m.cpu, b, Rd(w), UImm20(w));
    StepIsMeaning(mode, batch, m, b, w);
    WrapSum(m.cpu.pc + 0x1000 * UImm20(w), 4);
  }

  /** A jal never goes where the ISA sends the same word. */
  lemma JalNeverAgrees(pc: u32, w: u32)
    ensures JalNext(pc, w) != Wrap(pc + JImm(w))
  {
    var u := w / 0x1000;
    var h := u / 256;
    var t := h / 2;
    assert w / 0x10_0000 == h && w / 0x20_0000 == t && w / 0x8000_0000 == t / 1024;
    assert u == 256 * h + u % 256 && h == 2 * t + h % 2 && t == 1024 * (t / 1024) + t % 1024;
    var l, x, y, z := u % 256, h % 2, t % 1024, t / 1024;
    assert z < 2;
    assert u == l + 256 * x + 512 * y + 0x8_0000 * z;
    WrapEqual(pc + 4 + 0x1000 * u, pc + JImm(w));
  }

  /** The target of section 2.5 of the RISC-V Unprivileged ISA: rs1 plus the sign-extended immediate, with
      the lowest bit cleared. */
  function StandardJalr(c: CpuState, w: u32): u32 {
    var t := Wrap(c.gpr[Rs1(w)] + SImm12(w));
    t - t % 2
  }

  lemma JalrArith(v: u32, simm: int)
    requires -0x800 <= simm < 0x800
    ensures var t := Wrap(v + simm);
            Wrap(v + 4) == t - t % 2 <==> v % 2 == 0 && (simm == 4 || simm == 5)
  {
    var t := Wrap(v + simm);
    ParityOfWrap(v + simm);
    var e := (v + simm) % 2;
    assert t - t % 2 == Wrap(v + simm - e) by { EvenWrap(v + simm, e); }
    WrapEqual(v + 4, v + simm - e);
  }

  lemma ParityOfWrap(x: int)
    ensures Wrap(x) % 2 == x % 2
  {
    ModOfMod(x, 2, 0x8000_0000);
  }

  lemma EvenWrap(x: int, e: int)
    requires e == x % 2
    ensures Wrap(x) - e == Wrap(x - e)
  {
    ParityOfWrap(x);
    var q := x / TWO32;
    assert x == TWO32 * q + Wrap(x);
    DivModUnique(x - e, TWO32, q, Wrap(x) - e);
  }

  /** The pc after a jalr here: four past its source register, which is read after rd was written. */
  function JalrNext(c: CpuState, w: u32): u32 {
    if Rd(w) == Rs1(w) then Wrap(c.pc + 8) else Wrap(4 + c.gpr[Rs1(w)] as int)
  }

  lemma JalrTarget(mode: Mode, batch: bool, m: MachineState, b: BoardState, w: u32)
    requires FetchesWord(mode, m, b, w) && w % 4 == 3 && Decode(w) == Jalr
    ensures ContinuesAt(Step(mode, batch, m), JalrNext(m.cpu, w))
  {
    hide Step;
    hide FetchesWord;
    hide Wrap;
    hide Rd;
    hide Rs1;
    assert Operands(w) == JalrInstr(Jalr, Rd(w), Rs1(w));
    hide Operands;
    hide Decode;
    hide LoadMem;
    hide StoreMem;
    hide Taken;
    StepIsMeaning(mode, batch, m, b, w);
    WrapSum(m.cpu.pc + 4, 4);
  }

  lemma SImmRange(w: u32)
    ensures -0x800 <= SImm12(w) < 0x800
  {
  }

  /** A jalr goes where the ISA sends it exactly when its register is even and its immediate 4 or 5; with rd
      equal to rs1, exactly when register and immediate add up to 8 or 9 more than the pc. */
  lemma JalrAgrees(c: CpuState, w: u32)
    requires c.pc % 4 == 0
    ensures var v, imm := c.gpr[Rs1(w)], SImm12(w);
            JalrNext(c, w) == StandardJalr(c, w) <==>
              if Rd(w) != Rs1(w) then v % 2 == 0 && (imm == 4 || imm == 5)
              else Wrap(v + imm) == Wrap(c.pc + 8) || Wrap(v + imm) == Wrap(c.pc + 9)
  {
    hide Wrap;
    hide Rd;
    hide Rs1;
    hide SImm12;
    SImmRange(w);
    JalrArith(c.gpr[Rs1(w)], SImm12(w));
    PairEven(Wrap(c.gpr[Rs1(w)] + SImm12(w)), c.pc + 8);
  }

  /** Clearing the lowest bit of t gives Wrap(x), for an even x, exactly when t is Wrap(x) or Wrap(x + 1). */
  lemma PairEven(t: u32, x: int)
    requires x % 2 == 0
    ensures Wrap(x) == t - t % 2 <==> t == Wrap(x) || t == Wrap(x + 1)
  {
    ParityOfWrap(x);
    ParityOfWrap(x + 1);
    EvenWrap(x + 1, 1);
  }

  // Control and status registers.

  /** What the ISA stores: the operand, the old value with the operand's bits set, or with them cleared. */
  function StandardCsrValue(op: Op, old_: u32, operand: u32): u32 {
    match op
    case Csrrw | Csrrwi => operand
    case Csrrs | Csrrsi => Bitwise(OrOp, old_, operand)
    case _ => Bitwise(AndOp, old_, 0xFFFF_FFFF - operand)
  }

  lemma {:induction false} AndNotIs(n: nat, a: nat, b: nat)
    requires b < Pow2(n)
    ensures Combine(n, AndOp, a, Pow2(n) - 1 - b) == Combine(n, AndNotOp, a, b)
    decreases n
  {
    if n > 0 {
      var p := Pow2(n - 1);
      var c := 2 * p - 1 - b;
      assert c / 2 == p - 1 - b / 2 && c % 2 == 1 - b % 2;
      AndNotIs(n - 1, a / 2, b / 2);
    }
  }

  lemma BitwiseAndNot(a: u32, b: u32)
    ensures Bitwise(AndOp, a, 0xFFFF_FFFF - b) == Bitwise(AndNotOp, a, b)
  {
    hide Combine;
    hide Pow2;
    Pow2Values();
    AndNotIs(32, a, b);
  }

  lemma CsrValueIs(op: Op, old_: u32, operand: u32)
    requires KindOf(op) == CsrKind
    ensures CsrValue(op, old_, operand) == StandardCsrValue(op, old_, operand)
  {
    BitwiseAndNot(old_, operand);
    hide Bitwise;
  }

  /** Section 9.1 of the RISC-V Unprivileged ISA: rd gets the old value (a write to x0 is dropped), and the
      CSR is written except by a set or clear with rs1 field 0. */
  function StandardCsr(c: CpuState, op: Op, w: u32): CpuState {
    var rd, rs1, n := Rd(w), Rs1(w), Imm12(w);
    var old_ := c.csr[n];
    var operand: u32 := if op in {Csrrwi, Csrrsi, Csrrci} then rs1 else c.gpr[rs1];
    c.(gpr := if rd == 0 then c.gpr else c.gpr[rd := old_],
       csr := if op != Csrrw && op != Csrrwi && rs1 == 0 then c.csr else c.csr[n := StandardCsrValue(op, old_, operand)])
  }

  /** When a CSR handler does what the ISA says, for the rd and rs1 fields, the values g0, gd and gs of
      registers 0, rd and rs1, and the CSR's value. */
  predicate CsrAgrees(op: Op, rd: reg, rs1: reg, g0: u32, gd: u32, gs: u32, old_: u32) {
    match op
    case Csrrw =>
      if gd == 0 then gs == old_ && (rd == 0 || old_ == 0) else (rd != 0 || old_ == g0) && (rd != rs1 || old_ == gs)
    case Csrrwi =>
      if gd == 0 then rs1 == old_ && (rd == 0 || old_ == 0) else rd != 0 || old_ == g0
    case Csrrsi | Csrrci =>
      if rs1 == 0 then rd == 0 || old_ == gd else rd != 0 || old_ == g0
    case _ =>
      && (rd != 0 || old_ == g0)
      && (if rs1 == 0 then StandardCsrValue(op, old_, if rd == 0 then old_ else g0) == old_
          else rd != rs1 || StandardCsrValue(op, old_, gs) == StandardCsrValue(op, old_, old_))
  }

  /** Each CSR handler leaves the state that the ISA prescribes exactly under its condition. */
  lemma CsrStandard(c: CpuState, op: Op, w: u32)
    requires KindOf(op) == CsrKind
    ensures var rd, rs1 := Rd(w), Rs1(w);
            ExecCsr(c, op, w) == StandardCsr(c, op, w) <==>
              CsrAgrees(op, rd, rs1, c.gpr[0], c.gpr[rd], c.gpr[rs1], c.csr[Imm12(w)])
  {
    hide CsrAgrees;
    hide ExecCsr;
    hide StandardCsr;
    match op {
      case Csrrw => CsrWriteStandard(c, op, w);
      case Csrrwi => CsrWriteStandard(c, op, w);
      case Csrrsi => CsrImmStandard(c, op, w);
      case Csrrci => CsrImmStandard(c, op, w);
      case _ => CsrRegStandard(c, op, w);
    }
  }

  lemma SameCpu(c: CpuState, g: Gprs, s: Csrs, g': Gprs, s': Csrs)
    ensures c.(gpr := g, csr := s) == c.(gpr := g', csr := s') <==> g == g' && s == s'
  {
  }

  lemma SameEntry(s: seq<u32>, n: nat, v: u32)
    requires n < |s|
    ensures s[n := v] == s <==> v == s[n]
  {
    assert s[n := v][n] == v;
  }

  lemma WrittenValue(op: Op, old_: u32, operand: u32)
    requires op == Csrrw || op == Csrrwi
    ensures CsrValue(op, old_, operand) == operand && StandardCsrValue(op, old_, operand) == operand
  {
    hide Bitwise;
  }

  lemma CsrWriteStandard(c: CpuState, op: Op, w: u32)
    requires op == Csrrw || op == Csrrwi
    ensures var rd, rs1 := Rd(w), Rs1(w);
            ExecCsr(c, op, w) == StandardCsr(c, op, w) <==>
              CsrAgrees(op, rd, rs1, c.gpr[0], c.gpr[rd], c.gpr[rs1], c.csr[Imm12(w)])
  {
    hide Rd;
    hide Rs1;
    hide Imm12;
    hide CsrValue;
    hide StandardCsrValue;
    var rd, rs1, n := Rd(w), Rs1(w), Imm12(w);
    var old_ := c.csr[n];
    var operand: u32 := if op == Csrrwi then rs1 else c.gpr[rs1];
    var got: u32 := if op == Csrrwi then rs1 else c.gpr[rd := old_][rs1];
    var g' := if rd == 0 then c.gpr else c.gpr[rd := old_];
    WrittenValue(op, old_, operand);
    WrittenValue(op, old_, got);
    assert StandardCsr(c, op, w) == c.(gpr := g', csr := c.csr[n := operand]);
    hide StandardCsr;
    assert ExecCsr(c, op, w) == if c.gpr[rd] == 0 then c else c.(gpr := c.gpr[rd := old_], csr := c.csr[n := got]);
    hide ExecCsr;
    SameEntry(c.gpr, rd, old_);
    SameEntry(c.csr, n, operand);
    SameUpdate(c.csr, n, got, operand);
    SameCpu(c, c.gpr, c.csr, g', c.csr[n := operand]);
    SameCpu(c, c.gpr[rd := old_], c.csr[n := got], g', c.csr[n := operand]);
  }

  lemma CsrImmStandard(c: CpuState, op: Op, w: u32)
    requires op == Csrrsi || op == Csrrci
    ensures var rd, rs1 := Rd(w), Rs1(w);
            ExecCsr(c, op, w) == StandardCsr(c, op, w) <==>
              CsrAgrees(op, rd, rs1, c.gpr[0], c.gpr[rd], c.gpr[rs1], c.csr[Imm12(w)])
  {
    hide Rd;
    hide Rs1;
    hide Imm12;
    hide CsrValue;
    hide StandardCsrValue;
    var rd, rs1, n := Rd(w), Rs1(w), Imm12(w);
    var old_ := c.csr[n];
    CsrValueIs(op, old_, rs1);
    var v := CsrValue(op, old_, rs1);
    var g' := if rd == 0 then c.gpr else c.gpr[rd := old_];
    assert StandardCsr(c, op, w) == c.(gpr := g', csr := if rs1 == 0 then c.csr else c.csr[n := v]);
    hide StandardCsr;
    assert ExecCsr(c, op, w) == if rs1 == 0 then c else c.(gpr := c.gpr[rd := old_], csr := c.csr[n := v]);
    hide ExecCsr;
    SameEntry(c.gpr, rd, old_);
    SameCpu(c, c.gpr, c.csr, g', c.csr);
    SameCpu(c, c.gpr[rd := old_], c.csr[n := v], g', c.csr[n := v]);
  }

  lemma CsrRegStandard(c: CpuState, op: Op, w: u32)
    requires op == Csrrs || op == Csrrc
    ensures var rd, rs1 := Rd(w), Rs1(w);
            ExecCsr(c, op, w) == StandardCsr(c, op, w) <==>
              CsrAgrees(op, rd, rs1, c.gpr[0], c.gpr[rd], c.gpr[rs1], c.csr[Imm12(w)])
  {
    hide Rd;
    hide Rs1;
    hide Imm12;
    hide CsrValue;
    hide StandardCsrValue;
    var rd, rs1, n := Rd(w), Rs1(w), Imm12(w);
    var old_ := c.csr[n];
    var g := c.gpr[rd := old_];
    var v, v' := CsrValue(op, old_, g[rs1]), CsrValue(op, old_, c.gpr[rs1]);
    CsrValueIs(op, old_, g[rs1]);
    CsrValueIs(op, old_, c.gpr[rs1]);
    CsrValueIs(op, old_, old_);
    CsrValueIs(op, old_, c.gpr[0]);
    SameEntry(c.gpr, rd, old_);
    SameEntry(c.csr, n, v);
    SameUpdate(c.csr, n, v, v');
  }

  // Division.

  /** Section 7.2 of the RISC-V Unprivileged ISA, which defines division by zero and overflow. */
  function StandardDivision(op: Op, a: u32, b: u32): u32 {
    match op
    case Div => if b == 0 then 0xFFFF_FFFF else Wrap(TruncDiv(Signed(a), Signed(b)))
    case Rem => if b == 0 then a else Wrap(TruncRem(Signed(a), Signed(b)))
    case Divu => if b == 0 then 0xFFFF_FFFF else Wrap(a / b)
    case _ => if b == 0 then a else Wrap(a % b)
  }

  /** A division has the ISA's result exactly when C defines it, for a divisor other than 0 and not for INT_MIN
      / -1; otherwise its execution is undefined. */
  lemma DivisionStandard(c: CpuState, op: Op, w: u32)
    requires op in {Div, Rem, Divu, Remu}
    ensures var a, b := c.gpr[Rs1(w)], c.gpr[Rs2(w)];
            var defined := b != 0 && !((op == Div || op == Rem) && a == 0x8000_0000 && b == 0xFFFF_FFFF);
            && (ExecAlu(c, op, w) == Ok(c.(gpr := c.gpr[Rd(w) := StandardDivision(op, a, b)])) <==> defined)
            && (!defined ==> ExecAlu(c, op, w) == Dies(Undefined))
  {
    hide Rd;
    hide Rs1;
    hide Rs2;
    hide Bitwise;
    hide ShiftLeft;
    hide ShiftRight;
    hide ShiftRightArith;
  }

  // Register 0.

  /** The value an instruction writes to rd. */
  function WriteBack(mode: Mode, c: CpuState, b: BoardState, w: u32): Option<u32> {
    var op := Decode(w);
    match KindOf(op)
    case AluKind | AluiKind =>
      var x, y := c.gpr[Rs1(w)], Operand2(c, op, w);
      if DivisionDefined(op, x, y) then Some(Value(op, x, y)) else None
    case LoadKind =>
      var r := LoadMem(mode, b, LoadAddr(c, w), Width(op));
      if r.Ok? then Some(Extend(op, r.value.1)) else None
    case UpperKind =>
      Some(if op == Lui then Wrap(0x1000 * UImm20(w)) else if op == Auipc then Wrap(c.pc + 0x1000 * UImm20(w)) else Wrap(c.pc + 4))
    case JalrKind => Some(Wrap(c.pc + 4))
    case CsrKind => if CsrWrites(op, c.gpr[Rd(w)], Rs1(w)) then Some(c.csr[Imm12(w)]) else None
    case _ => None
  }

  /** The registers after an instruction: rd holds the value written back, and nothing else changes. */
  lemma RegistersAfter(mode: Mode, batch: bool, c: CpuState, b: BoardState, w: u32)
    requires Execute(mode, batch, c, b, w).Ok?
    ensures Execute(mode, batch, c, b, w).value.0.gpr ==
            match WriteBack(mode, c, b, w) case None => c.gpr case Some(v) => c.gpr[Rd(w) := v]
  {
    hide Decode;
    hide LoadMem;
    hide StoreMem;
    hide Value;
    hide CsrValue;
    hide CsrWrites;
    hide Extend;
    hide Operand2;
    hide Taken;
    hide Wrap;
    hide Rd;
    hide Rs1;
    hide Imm12;
  }

  /** Register 0 keeps its value over a step exactly when the instruction names another rd, writes nothing
      back, or writes back that value. */
  lemma RegisterZeroStep(mode: Mode, batch: bool, m: MachineState, b: BoardState, w: u32)
    requires FetchesWord(mode, m, b, w) && Step(mode, batch, m).Live?
    ensures Step(mode, batch, m).m.cpu.gpr[0] == m.cpu.gpr[0] <==>
              Rd(w) != 0 || WriteBack(mode, m.cpu, b, w) in {None, Some(m.cpu.gpr[0])}
  {
    hide Execute;
    hide LoadMem;
    hide WriteBack;
    hide Rd;
    RegistersAfter(mode, batch, m.cpu, b, w);
  }

  /** The fetch of an iteration: the board it leaves and the word, if it gets that far. */
  function Fetched(mode: Mode, env: Env, m: MachineState): Option<(BoardState, u32)> {
    match HandlerRuns(m.board.uart, env.sched(m.clock), env.ascii)
    case Dies(_) => None
    case Ok(u) =>
      match LoadMem(mode, m.board.(uart := u), m.cpu.pc, 4)
      case Dies(_) => None
      case Ok(f) => Some(f)
  }

  /** The iteration writes nothing but 0 to register 0. */
  predicate SparesZero(mode: Mode, env: Env, m: MachineState) {
    var f := Fetched(mode, env, m);
    f.Some? ==> Rd(f.value.1) != 0 || WriteBack(mode, m.cpu, f.value.0, f.value.1) in {None, Some(0)}
  }

  /** Every live iteration of the run writes nothing but 0 to register 0. */
  predicate RunSparesZero(mode: Mode, env: Env, m: MachineState, n: nat)
    decreases n
  {
    n > 0 && Tick(mode, env, m).Live? ==>
      && SparesZero(mode, env, m)
      && (Tick(mode, env, m).m.board.nemu == NemuRunning ==> RunSparesZero(mode, env, Tick(mode, env, m).m, n - 1))
  }

  /** Register 0 is 0 in every state of the run. */
  predicate RunHasZero(mode: Mode, env: Env, m: MachineState, n: nat)
    decreases n
  {
    && m.cpu.gpr[0] == 0
    && (n > 0 && Tick(mode, env, m).Live? ==>
          if Tick(mode, env, m).m.board.nemu == NemuRunning then RunHasZero(mode, env, Tick(mode, env, m).m, n - 1)
          else Tick(mode, env, m).m.cpu.gpr[0] == 0)
  }

  lemma TickZero(mode: Mode, env: Env, m: MachineState)
    requires m.cpu.gpr[0] == 0 && Tick(mode, env, m).Live?
    ensures Tick(mode, env, m).m.cpu.gpr[0] == 0 <==> SparesZero(mode, env, m)
  {
    hide Execute;
    hide LoadMem;
    hide WriteBack;
    hide HandlerRuns;
    hide Rd;
    var u := HandlerRuns(m.board.uart, env.sched(m.clock), env.ascii).value;
    var m1 := m.(board := m.board.(uart := u));
    Runs.LiveStep(mode, env.batch, m1);
    var f := LoadMem(mode, m1.board, m1.cpu.pc, 4).value;
    RegisterZeroStep(mode, env.batch, m1, f.0, f.1);
  }

  /** A run that starts with register 0 holding 0 has it in every state exactly when no instruction writes
      another value back to rd = 0. */
  lemma {:induction false} RegisterZeroRun(mode: Mode, env: Env, m: MachineState, n: nat)
    requires m.cpu.gpr[0] == 0
    ensures RunHasZero(mode, env, m, n) <==> RunSparesZero(mode, env, m, n)
    decreases n
  {
    hide Tick;
    hide SparesZero;
    if n > 0 && Tick(mode, env, m).Live? {
      TickZero(mode, env, m);
      var m1 := Tick(mode, env, m).m;
      if m1.cpu.gpr[0] == 0 && m1.board.nemu == NemuRunning {
        RegisterZeroRun(mode, env, m1, n - 1);
      }
      if m1.cpu.gpr[0] != 0 && m1.board.nemu == NemuRunning {
        assert !RunHasZero(mode, env, m1, n - 1);
      }
    }
  }

  /** A machine booted from the one-word image addi x0, x0, 1 starts with register 0 holding 0, and after
      its first step register 0 holds 1. */
  lemma RegisterZeroExample(mode: Mode, batch: bool)
    ensures var img: seq<byte> := [0x13, 0x00, 0x10, 0x00];
            var boot := InitMonitor([], ImageFile(img));
            && boot.Ok? && boot.value.cpu.gpr[0] == 0
            && Step(mode, batch, boot.value).Live? && Step(mode, batch, boot.value).m.cpu.gpr[0] == 1
  {
    hide Step;
    hide LoadMem;
    hide LoadImage;
    hide BramInit;
    hide BoardInit;
    hide Assemble;
    var img: seq<byte> := [0x13, 0x00, 0x10, 0x00];
    ExampleLoads(img);
    ImageFetch(mode, BoardInit(), img);
    ExampleWord(img);
    var m := InitMonitor([], ImageFile(img)).value;
    RegisterZeroChanges(mode, batch, m, m.board);
  }

  lemma ExampleLoads(img: seq<byte>)
    requires |img| == 4
    ensures LoadImage(BoardInit(), img, CPU_INIT_PC).Ok?
  {
    hide LoadImage;
    ImageIsSegment(BoardInit(), img, CPU_INIT_PC);
  }

  lemma ExampleWord(img: seq<byte>)
    requires img == [0x13, 0x00, 0x10, 0x00]
    ensures Le(img[..4]) == Assemble(AluImmInstr(Addi, 0, 0, 1)) == 0x10_0013
  {
    LeUpTo4(img[..4]);
  }

  /** addi x0, x0, 1 makes register 0 hold 1. */
  lemma RegisterZeroChanges(mode: Mode, batch: bool, m: MachineState, b: BoardState)
    requires FetchesWord(mode, m, b, Assemble(AluImmInstr(Addi, 0, 0, 1))) && m.cpu.gpr[0] == 0
    ensures Step(mode, batch, m).Live? && Step(mode, batch, m).m.cpu.gpr[0] == 1
  {
    hide Step;
    hide FetchesWord;
    hide Assemble;
    AssembledStep(mode, batch, m, b, AluImmInstr(Addi, 0, 0, 1));
  }
}
