// What executed loads, stores, compares, branches and CSR instructions do, stated on whole steps and without
// the functions that the handlers use: by bits, by bytes in memory, and by one instruction in terms of
// another.

module HandlerLaws {
  import opened Words
  import opened Outcomes
  import opened Formats
  import opened Decoder
  import opened Alu
  import opened AluBits
  import opened AddressMap
  import opened Ram
  import opened Board
  import opened TraceRing
  import opened Machine
  import opened Runs
  import opened MemoryAlgebra
  import opened Semantics
  import opened Departures

  // Loads and stores.

  /** How many bytes a load or store moves. */
  function Moved(op: Op): alen
    requires KindOf(op) == LoadKind || KindOf(op) == StoreKind
  {
    match op
    case Lb | Lbu | Sb => 1
    case Lh | Lhu | Sh => 2
    case Lw | Sw => 4
  }

  /** v is what a load leaves in rd for the little-endian value raw of the bytes it read: lb and lh copy the
      sign bit into every higher bit, the others leave the value as it is. */
  ghost predicate Arrives(op: Op, raw: nat, v: u32) {
    match op
    case Lb => forall k: nat | k < 32 :: Bit(v, k) == Bit(raw, if k < 7 then k else 7)
    case Lh => forall k: nat | k < 32 :: Bit(v, k) == Bit(raw, if k < 15 then k else 15)
    case _ => v == raw
  }

  lemma ExtendArrives(op: Op, raw: u32)
    requires KindOf(op) == LoadKind
    requires Moved(op) == 1 ==> raw < 0x100
    requires Moved(op) == 2 ==> raw < 0x1_0000
    ensures Arrives(op, raw, Extend(op, raw))
  {
    hide Bit;
    match op {
      case Lb => SignByteBits(raw);
      case Lh => SignHalfBits(raw);
      case _ =>
    }
  }

  lemma SignByteBits(raw: u32)
    requires raw < 0x100
    ensures Arrives(Lb, raw, Extend(Lb, raw))
  {
    hide Bit;
    assert Pow2(7) == 0x80 && Pow2(8) == 0x100 && Pow2(24) == 0x100_0000 by { Pow2Values(); }
    hide Pow2;
    assert Extend(Lb, raw) == if raw < 0x80 then raw else raw + 0x100 * 0xFF_FFFF;
    forall k: nat | k < 32 ensures Bit(Extend(Lb, raw), k) == Bit(raw, if k < 7 then k else 7) {
      SignBits(raw, 7, k);
    }
  }

  lemma SignHalfBits(raw: u32)
    requires raw < 0x1_0000
    ensures Arrives(Lh, raw, Extend(Lh, raw))
  {
    hide Bit;
    assert Pow2(15) == 0x8000 && Pow2(16) == 0x1_0000 by { Pow2Values(); }
    hide Pow2;
    assert Extend(Lh, raw) == if raw < 0x8000 then raw else raw + 0x1_0000 * 0xFFFF;
    forall k: nat | k < 32 ensures Bit(Extend(Lh, raw), k) == Bit(raw, if k < 15 then k else 15) {
      SignBits(raw, 15, k);
    }
  }

  lemma WidthMoved(op: Op)
    requires KindOf(op) == LoadKind || KindOf(op) == StoreKind
    ensures Width(op) == Moved(op)
  {
  }

  lemma LeBound(s: seq<byte>)
    requires |s| <= 4
    ensures Le(s) < TWO32 && (|s| == 1 ==> Le(s) < 0x100) && (|s| == 2 ==> Le(s) < 0x1_0000)
  {
    LeUpTo4(s);
  }

  /** The effective address of a load or of a store, whose handler sees a negative offset 8192 too large. */
  function Effective(c: CpuState, i: Instr): u32
    requires i.LoadInstr? || i.StoreInstr?
  {
    if i.LoadInstr? then Wrap(c.gpr[i.rs1] + i.off)
    else Wrap(c.gpr[i.rs1] + (if i.off < 0 then i.off + 8192 else i.off))
  }

  /** The step stays alive, leaves the CPU c with the pc advanced, and the board b. */
  predicate Leaves(r: Result, c: CpuState, b: BoardState) {
    r.Live? && r.m.cpu == c.(pc := Wrap(c.pc + 4)) && r.m.board == b
  }

  /** A fetch changes no RAM. */
  lemma FetchKeepsRam(mode: Mode, m: MachineState, b: BoardState, w: u32, pa: int, n: nat)
    requires FetchesWord(mode, m, b, w)
    ensures RamBytes(b, pa, n) == RamBytes(m.board, pa, n)
  {
    hide LoadMem;
    LoadMemFrame(mode, m.board, m.cpu.pc, 4);
    forall i | 0 <= i < n ensures RamBytes(b, pa, n)[i] == RamBytes(m.board, pa, n)[i] {
      assert RamByte(b, pa + i) == RamByte(m.board, pa + i);
    }
  }

  /** An assembled load from memory leaves the signed or unsigned value of the bytes at its address in rd,
      and nothing else changes. */
  lemma LoadStep(mode: Mode, batch: bool, m: MachineState, b: BoardState, i: Instr) returns (v: u32)
    requires i.Valid() && i.LoadInstr? && KindOf(i.op) == LoadKind && FetchesWord(mode, m, b, Assemble(i))
    requires Aligned(Effective(m.cpu, i), Moved(i.op))
    ensures Leaves(Step(mode, batch, m), SetReg(m.cpu, i.rd, v), b)
    ensures Arrives(i.op, Le(RamBytes(m.board, ProtAddr(Effective(m.cpu, i)), Moved(i.op))), v)
  {
    hide Step;
    hide Assemble;
    hide FetchesWord;
    hide LoadMem;
    hide RamAccess;
    hide Aligned;
    hide ProtAddr;
    hide Wrap;
    hide Extend;
    hide Arrives;
    hide RamBytes;
    var ea, n := Effective(m.cpu, i), Moved(i.op);
    WidthMoved(i.op);
    AlignedRamAccess(ea, n);
    LoadRam(mode, b, ea, n);
    var raw := LoadMem(mode, b, ea, n).value.1;
    v := Extend(i.op, raw);
    LeBound(RamBytes(b, ProtAddr(ea), n));
    ExtendArrives(i.op, raw);
    FetchKeepsRam(mode, m, b, Assemble(i), ProtAddr(ea), n);
    assert ea % n == 0 by { AlignedMod(ea, n); }
    AssembledStep(mode, batch, m, b, i);
  }

  lemma AlignedMod(addr: u32, len: alen)
    requires Aligned(addr, len)
    ensures addr % len == 0
  {
  }

  /** After any sequence of stores to memory, an assembled load leaves the signed or unsigned value of the
      bytes last written at its address in rd. */
  lemma LoadStepAfterStores(mode: Mode, batch: bool, m: MachineState, b: BoardState, i: Instr, b0: BoardState, stores: seq<Store>) returns (v: u32)
    requires i.Valid() && i.LoadInstr? && KindOf(i.op) == LoadKind && FetchesWord(mode, m, b, Assemble(i))
    requires Aligned(Effective(m.cpu, i), Moved(i.op))
    requires forall k | 0 <= k < |stores| :: RamAccess(stores[k].addr, stores[k].len)
    requires StoreAll(mode, b0, stores, batch) == Ok(m.board)
    ensures Leaves(Step(mode, batch, m), SetReg(m.cpu, i.rd, v), b)
    ensures Arrives(i.op, Le(Latest(b0, stores, ProtAddr(Effective(m.cpu, i)), Moved(i.op))), v)
  {
    hide Step;
    hide Assemble;
    hide FetchesWord;
    hide StoreAll;
    hide Arrives;
    hide ProtAddr;
    v := LoadStep(mode, batch, m, b, i);
    var b' := StoreAllBytes(mode, b0, stores, batch);
    var pa, n := ProtAddr(Effective(m.cpu, i)), Moved(i.op);
    AccessInRam(Effective(m.cpu, i), n);
    LatestIs(b0, m.board, stores, pa, n);
  }

  lemma AccessInRam(addr: u32, len: alen)
    requires Aligned(addr, len)
    ensures forall q | ProtAddr(addr) <= q < ProtAddr(addr) + len :: InRam(q)
  {
    AlignedRamAccess(addr, len);
    hide ProtAddr;
  }

  lemma LatestIs(b: BoardState, b': BoardState, stores: seq<Store>, pa: int, n: nat)
    requires forall q | InRam(q) :: RamByte(b', q) == LastByte(RamByte(b, q), stores, q)
    requires forall q | pa <= q < pa + n :: InRam(q)
    ensures RamBytes(b', pa, n) == Latest(b, stores, pa, n)
  {
    hide RamByte;
    hide InRam;
    hide LastByte;
    forall i | 0 <= i < n ensures RamBytes(b', pa, n)[i] == Latest(b, stores, pa, n)[i] {
      assert InRam(pa + i);
    }
  }

  /** An assembled store to memory writes the low bytes of rs2 at its address, and changes no other byte, no
      register and no device. */
  lemma StoreStep(mode: Mode, batch: bool, m: MachineState, b: BoardState, i: Instr) returns (b': BoardState)
    requires i.Valid() && i.StoreInstr? && KindOf(i.op) == StoreKind && FetchesWord(mode, m, b, Assemble(i))
    requires Aligned(Effective(m.cpu, i), Moved(i.op))
    ensures Leaves(Step(mode, batch, m), m.cpu, b') && SameDevices(b, b')
    ensures var pa, v := ProtAddr(Effective(m.cpu, i)), m.cpu.gpr[i.rs2];
            forall q | InRam(q) :: RamByte(b', q) == if pa <= q < pa + Moved(i.op) then ByteOf(v, q - pa) else RamByte(m.board, q)
  {
    hide Step;
    hide Assemble;
    hide StoreMem;
    hide LoadMem;
    hide RamAccess;
    hide Aligned;
    hide ProtAddr;
    hide Wrap;
    hide RamByte;
    var ea, n := Effective(m.cpu, i), Moved(i.op);
    WidthMoved(i.op);
    AlignedRamAccess(ea, n);
    AlignedMod(ea, n);
    b' := StoreRam(mode, b, MemoryAlgebra.Store(ea, n, m.cpu.gpr[i.rs2]), batch);
    LoadMemFrame(mode, m.board, m.cpu.pc, 4);
    forall q | InRam(q) ensures RamByte(b, q) == RamByte(m.board, q) {
      UartKeepsRam(m.board, b.uart, q);
    }
    AssembledStep(mode, batch, m, b, i);
  }

  lemma UartKeepsRam(b: BoardState, u: Uart.UartState, q: int)
    ensures RamByte(b.(uart := u), q) == RamByte(b, q)
  {
  }

  // Branches in terms of compares.

  /** An assembled register instruction leaves its value in rd. */
  lemma AluStep(mode: Mode, batch: bool, m: MachineState, b: BoardState, i: Instr)
    requires i.Valid() && i.AluInstr? && KindOf(i.op) == AluKind && FetchesWord(mode, m, b, Assemble(i))
    requires DivisionDefined(i.op, m.cpu.gpr[i.rs1], m.cpu.gpr[i.rs2])
    ensures Leaves(Step(mode, batch, m), SetReg(m.cpu, i.rd, Value(i.op, m.cpu.gpr[i.rs1], m.cpu.gpr[i.rs2])), b)
  {
    hide Step;
    hide Assemble;
    hide FetchesWord;
    hide Value;
    hide DivisionDefined;
    hide Wrap;
    AssembledStep(mode, batch, m, b, i);
  }

  /** The compare whose result decides a branch. */
  function CompareOf(i: Instr, rd: reg): Instr
    requires i.BranchInstr?
  {
    AluInstr(if i.op == Blt || i.op == Bge then Slt else Sltu, rd, i.rs1, i.rs2)
  }

  /** blt, bge, bltu and bgeu in one state, and slt or sltu of the same registers in another with the same
      CPU: blt and bltu are taken when the compare writes 1, bge and bgeu when it writes 0. */
  lemma BranchFollowsCompare(mode: Mode, batch: bool, m: MachineState, b: BoardState, i: Instr, rd: reg, mc: MachineState, bc: BoardState)
    requires i.Valid() && i.BranchInstr? && i.op in {Blt, Bge, Bltu, Bgeu} && FetchesWord(mode, m, b, Assemble(i))
    requires mc.cpu == m.cpu && FetchesWord(mode, mc, bc, Assemble(CompareOf(i, rd)))
    ensures var r := Step(mode, batch, mc);
            && r.Live? && r.m.cpu.gpr[rd] in {0, 1}
            && var taken := r.m.cpu.gpr[rd] == (if i.op == Blt || i.op == Bltu then 1 else 0);
            ContinuesAt(Step(mode, batch, m), if taken then Wrap(m.cpu.pc + 4 + 2 * i.off) else Wrap(m.cpu.pc + 4))
  {
    hide Step;
    hide Assemble;
    hide FetchesWord;
    hide Wrap;
    BranchTarget(mode, batch, m, b, i);
    TakenIsStandard(i.op, m.cpu.gpr[i.rs1], m.cpu.gpr[i.rs2]);
    CompareRange(CompareOf(i, rd).op, m.cpu.gpr[i.rs1], m.cpu.gpr[i.rs2]);
    hide Taken;
    hide Value;
    AluStep(mode, batch, mc, bc, CompareOf(i, rd));
  }

  lemma CompareRange(op: Op, a: u32, b: u32)
    requires op == Slt || op == Sltu
    ensures Value(op, a, b) == 0 || Value(op, a, b) == 1
  {
    hide Bitwise;
    hide ShiftLeft;
    hide ShiftRight;
    hide ShiftRightArith;
  }

  /** beq and bne are both taken exactly when the registers are equal. */
  lemma EqualBranches(mode: Mode, batch: bool, m: MachineState, b: BoardState, i: Instr)
    requires i.Valid() && i.BranchInstr? && i.op in {Beq, Bne} && FetchesWord(mode, m, b, Assemble(i))
    ensures ContinuesAt(Step(mode, batch, m),
                        if m.cpu.gpr[i.rs1] == m.cpu.gpr[i.rs2] then Wrap(m.cpu.pc + 4 + 2 * i.off) else Wrap(m.cpu.pc + 4))
  {
    hide Step;
    hide Assemble;
    hide FetchesWord;
    hide Wrap;
    BranchTarget(mode, batch, m, b, i);
  }

  // CSR instructions, bit by bit.

  /** The guards of the handlers. */
  predicate CsrGuard(op: Op, rdValue: u32, rs1: reg) {
    match op
    case Csrrw | Csrrwi => rdValue != 0
    case Csrrsi | Csrrci => rs1 != 0
    case _ => true
  }

  /** Bit k of what a CSR handler stores, from bit k of the old value and of the operand. */
  predicate CsrBit(op: Op, old_: bool, operand: bool) {
    match op
    case Csrrw | Csrrwi => operand
    case Csrrs | Csrrsi => old_ || operand
    case _ => old_ && !operand
  }

  /** After an assembled CSR instruction whose guard holds, rd has the old CSR value, the CSR has the bits
      that CsrBit says, for the operand in the rs1 field or in register rs1 as read after rd was written,
      and nothing else changes; if the guard fails, nothing changes. */
  lemma CsrStep(mode: Mode, batch: bool, m: MachineState, b: BoardState, i: Instr) returns (v: u32)
    requires i.Valid() && i.CsrInstr? && KindOf(i.op) == CsrKind && FetchesWord(mode, m, b, Assemble(i))
    ensures var c := m.cpu;
            var old_ := c.csr[i.csr];
            if !CsrGuard(i.op, c.gpr[i.rd], i.rs1) then Leaves(Step(mode, batch, m), c, b)
            else
              var operand := if i.op in {Csrrwi, Csrrsi, Csrrci} then i.rs1 else if i.rd == i.rs1 then old_ else c.gpr[i.rs1];
              && Leaves(Step(mode, batch, m), SetReg(c, i.rd, old_).(csr := c.csr[i.csr := v]), b)
              && forall k: nat | k < 32 :: Bit(v, k) == CsrBit(i.op, Bit(old_, k), Bit(operand, k))
  {
    hide Step;
    hide Assemble;
    hide FetchesWord;
    hide Wrap;
    hide CsrValue;
    hide Bit;
    hide CsrBit;
    var c := m.cpu;
    var old_ := c.csr[i.csr];
    var operand: u32 := if i.op in {Csrrwi, Csrrsi, Csrrci} then i.rs1 else if i.rd == i.rs1 then old_ else c.gpr[i.rs1];
    v := CsrValue(i.op, old_, operand);
    forall k: nat | k < 32 ensures Bit(v, k) == CsrBit(i.op, Bit(old_, k), Bit(operand, k)) {
      CsrValueBit(i.op, old_, operand, k);
    }
    AssembledStep(mode, batch, m, b, i);
  }

  lemma CsrValueBit(op: Op, old_: u32, operand: u32, k: nat)
    requires KindOf(op) == CsrKind && k < 32
    ensures Bit(CsrValue(op, old_, operand), k) == CsrBit(op, Bit(old_, k), Bit(operand, k))
  {
    hide Bit;
    hide Bitwise;
    BitwiseBit(OrOp, old_, operand, k);
    BitwiseBit(AndNotOp, old_, operand, k);
  }

  // Steps without data.

  /** A fence does nothing; ecall and ebreak fail their assertion; a word ending in 11 that fits no handler's
      pattern ends the run and changes nothing else; any other word fails the opcode assertion. */
  lemma PlainStep(mode: Mode, batch: bool, m: MachineState, b: BoardState, w: u32)
    requires FetchesWord(mode, m, b, w)
    ensures var r, trace := Step(mode, batch, m), m.trace + [Entry(m.cpu.pc, Some(w))];
            && (w % 4 != 3 ==> r == Dead(trace, OpcodeAssert))
            && (PatternOf(Fence).Fits(w) ==> Leaves(r, m.cpu, b))
            && (PatternOf(EcallEbreak).Fits(w) ==> r == Dead(trace, EcallAssert))
            && (w % 4 == 3 && (forall op: Op | op != Inv :: !PatternOf(op).Fits(w)) ==> Leaves(r, m.cpu, b.(nemu := NemuEnd)))
  {
    hide LoadMem;
    hide Decode;
    hide Wrap;
    if w % 4 == 3 {
      DecodePartition(w);
      PlainMeaning(mode, batch, m, b, w);
    } else {
      ExecuteOpcode(mode, batch, m.cpu, b, w);
      hide Execute;
    }
    if PatternOf(Fence).Fits(w) { FitsDecodes(Fence, w); }
    if PatternOf(EcallEbreak).Fits(w) { FitsDecodes(EcallEbreak, w); }
  }

  lemma ExecuteOpcode(mode: Mode, batch: bool, c: CpuState, b: BoardState, w: u32)
    requires w % 4 != 3
    ensures Execute(mode, batch, c, b, w) == Dies(OpcodeAssert)
  {
  }

  lemma PlainMeaning(mode: Mode, batch: bool, m: MachineState, b: BoardState, w: u32)
    requires FetchesWord(mode, m, b, w) && w % 4 == 3
    ensures var r, trace := Step(mode, batch, m), m.trace + [Entry(m.cpu.pc, Some(w))];
            && (Decode(w) == Fence ==> Leaves(r, m.cpu, b))
            && (Decode(w) == EcallEbreak ==> r == Dead(trace, EcallAssert))
            && (Decode(w) == Inv ==> Leaves(r, m.cpu, b.(nemu := NemuEnd)))
  {
    hide Decode;
    hide Wrap;
    hide Step;
    hide FetchesWord;
    hide LoadMem;
    hide StoreMem;
    hide Operands;
    hide Taken;
    hide Value;
    hide CsrValue;
    hide CsrWrites;
    hide Extend;
    hide Width;
    if Decode(w) in {Fence, EcallEbreak, Inv} {
      PlainOperands(w);
      StepIsMeaning(mode, batch, m, b, w);
    }
  }

  lemma PlainOperands(w: u32)
    requires Decode(w) in {Fence, EcallEbreak, Inv}
    ensures Operands(w) == PlainInstr(Decode(w))
  {
    hide Decode;
  }

  /** A misaligned load or store aborts. */
  lemma MisalignedStep(mode: Mode, batch: bool, m: MachineState, b: BoardState, i: Instr)
    requires i.Valid() && (i.LoadInstr? || i.StoreInstr?) && FetchesWord(mode, m, b, Assemble(i))
    requires KindOf(i.op) == if i.LoadInstr? then LoadKind else StoreKind
    requires Effective(m.cpu, i) % Moved(i.op) != 0
    ensures Step(mode, batch, m) == Dead(m.trace + [Entry(m.cpu.pc, Some(Assemble(i)))], CpuAbort)
  {
    hide Step;
    hide Assemble;
    hide FetchesWord;
    hide Wrap;
    hide LoadMem;
    hide StoreMem;
    WidthMoved(i.op);
    AssembledStep(mode, batch, m, b, i);
  }

  /** What lui and auipc leave in rd. */
  function UpperResult(op: Op, pc: u32, upper: nat): u32 {
    if op == Lui then Wrap(upper * 0x1000) else Wrap(pc + upper * 0x1000)
  }

  lemma UpperMeaning(mode: Mode, batch: bool, c: CpuState, b: BoardState, op: Op, rd: reg, upper: nat)
    requires op == Lui || op == Auipc
    ensures Meaning(mode, batch, c, b, UpperInstr(op, rd, upper)) == Ok((SetReg(c, rd, UpperResult(op, c.pc, upper)), b))
  {
    assert 0x1000 * upper == upper * 0x1000;
    hide Wrap;
  }

  lemma UpperStep(mode: Mode, batch: bool, m: MachineState, b: BoardState, op: Op, rd: reg, upper: nat)
    requires (op == Lui || op == Auipc) && upper < 0x10_0000 && FetchesWord(mode, m, b, Assemble(UpperInstr(op, rd, upper)))
    ensures Leaves(Step(mode, batch, m), SetReg(m.cpu, rd, UpperResult(op, m.cpu.pc, upper)), b)
  {
    hide Step;
    hide Assemble;
    hide FetchesWord;
    hide Meaning;
    hide UpperResult;
    hide Wrap;
    UpperMeaning(mode, batch, m.cpu, b, op, rd, upper);
    AssembledStep(mode, batch, m, b, UpperInstr(op, rd, upper));
  }

  /** An arithmetic instruction with an immediate does what its register form does with that operand. */
  lemma ImmediateStep(mode: Mode, batch: bool, m: MachineState, b: BoardState, i: Instr)
    requires i.Valid() && i.AluImmInstr? && KindOf(i.op) == AluiKind && FetchesWord(mode, m, b, Assemble(i))
    ensures DivisionDefined(RegisterForm(i.op), m.cpu.gpr[i.rs1], i.imm)
    ensures Leaves(Step(mode, batch, m), SetReg(m.cpu, i.rd, Value(RegisterForm(i.op), m.cpu.gpr[i.rs1], i.imm)), b)
  {
    hide Step;
    hide Assemble;
    hide FetchesWord;
    hide Value;
    hide LoadMem;
    hide StoreMem;
    ImmediateForm(i.op, m.cpu.gpr[i.rs1], i.imm);
    AssembledStep(mode, batch, m, b, i);
  }
}
