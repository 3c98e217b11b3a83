// The computed-goto dispatch of exec-handlers.h, and its inverse.

module Decoder {
  import opened Words
  import opened Formats

  datatype Op =
    | Beq | Bne | Blt | Bge | Bltu | Bgeu
    | Lb | Lh | Lw | Lbu | Lhu
    | Sb | Sh | Sw
    | Addi | Slli | Slti | Sltiu | Xori | Srli | Ori | Andi | Srai
    | Add | Sll | Slt | Sltu | Xor | Srl | Or | And | Sub | Sra
    | Mul | Mulh | Mulhsu | Mulhu | Div | Divu | Rem | Remu
    | EcallEbreak | Csrrw | Csrrs | Csrrc | Csrrwi | Csrrsi | Csrrci
    | Fence | Auipc | Lui | Jalr | Jal
    | Inv

  datatype Target = ToLoad | ToStore | ToBranch | ToAlui | ToAlu | ToCsr | Direct(op: Op)

  function BranchTable(i: nat): Op {
    match i
    case 0 => Beq case 1 => Bne case 4 => Blt case 5 => Bge case 6 => Bltu case 7 => Bgeu
    case _ => Inv
  }

  function LoadTable(i: nat): Op {
    match i
    case 0 => Lb case 1 => Lh case 2 => Lw case 4 => Lbu case 5 => Lhu
    case _ => Inv
  }

  function StoreTable(i: nat): Op {
    match i
    case 0 => Sb case 1 => Sh case 2 => Sw
    case _ => Inv
  }

  function AluiTable0(i: nat): Op {
    match i
    case 0 => Addi case 1 => Slli case 2 => Slti case 3 => Sltiu
    case 4 => Xori case 5 => Srli case 6 => Ori case 7 => Andi
    case _ => Inv
  }

  function AluiTable32(i: nat): Op {
    match i
    case 5 => Srai
    case _ => Inv
  }

  function AluTable0(i: nat): Op {
    match i
    case 0 => Add case 1 => Sll case 2 => Slt case 3 => Sltu
    case 4 => Xor case 5 => Srl case 6 => Or case 7 => And
    case _ => Inv
  }

  function AluTable1(i: nat): Op {
    match i
    case 0 => Mul case 1 => Mulh case 2 => Mulhsu case 3 => Mulhu
    case 4 => Div case 5 => Divu case 6 => Rem case 7 => Remu
    case _ => Inv
  }

  function AluTable32(i: nat): Op {
    match i
    case 0 => Sub case 5 => Sra
    case _ => Inv
  }

  function CsrTable(i: nat): Op {
    match i
    case 0 => EcallEbreak case 1 => Csrrw case 2 => Csrrs case 3 => Csrrc
    case 5 => Csrrwi case 6 => Csrrsi case 7 => Csrrci
    case _ => Inv
  }

  function OpcodeTable(i: nat): Target {
    match i
    case 0x00 => ToLoad
    case 0x03 => Direct(Fence)
    case 0x04 => ToAlui
    case 0x05 => Direct(Auipc)
    case 0x08 => ToStore
    case 0x0c => ToAlu
    case 0x0d => Direct(Lui)
    case 0x18 => ToBranch
    case 0x1b => Direct(Jalr)
    case 0x1c => ToCsr
    case 0x1d => Direct(Jal)
    case _ => Direct(Inv)
  }

  function Dispatch(opcode: nat, f3: nat, f7: nat): Op {
    match OpcodeTable(opcode / 4)
    case ToLoad => LoadTable(f3)
    case ToStore => StoreTable(f3)
    case ToBranch => BranchTable(f3)
    case ToAlui => if f7 == 0 then AluiTable0(f3) else if f7 == 1 then AluiTable32(f3) else Inv
    case ToAlu =>
      if f7 == 0 then AluTable0(f3) else if f7 == 1 then AluTable1(f3)
      else if f7 == 32 then AluTable32(f3) else Inv
    case ToCsr => CsrTable(f3)
    case Direct(op) => op
  }

  /** The handler reached by a word whose two low bits are set. */
  function Decode(w: u32): Op {
    Dispatch(Opcode(w), Func3(w), Func7(w))
  }

  datatype Kind = AluKind | AluiKind | LoadKind | StoreKind | BranchKind | CsrKind | UpperKind | JalrKind | NoneKind

  function KindOf(op: Op): Kind {
    match op
    case Beq | Bne | Blt | Bge | Bltu | Bgeu => BranchKind
    case Lb | Lh | Lw | Lbu | Lhu => LoadKind
    case Sb | Sh | Sw => StoreKind
    case Addi | Slli | Slti | Sltiu | Xori | Srli | Ori | Andi | Srai => AluiKind
    case Csrrw | Csrrs | Csrrc | Csrrwi | Csrrsi | Csrrci => CsrKind
    case Auipc | Lui | Jal => UpperKind
    case Jalr => JalrKind
    case Fence | EcallEbreak | Inv => NoneKind
    case _ => AluKind
  }

  /** The bit pattern of a handler: major opcode, and func3 and func7 where they matter.
      This is the reference the tables are compared with. */
  datatype Pattern = Pattern(opcode: nat, f3: Option<nat>, f7: Option<nat>)
  {
    predicate Fits(w: u32) {
      && Opcode(w) == opcode
      && (f3.Some? ==> Func3(w) == f3.value)
      && (f7.Some? ==> Func7(w) == f7.value)
    }
  }

  function PatternOf(op: Op): Pattern
    requires op != Inv
  {
    match op
    case Lb => Pattern(0x03, Some(0), None)
    case Lh => Pattern(0x03, Some(1), None)
    case Lw => Pattern(0x03, Some(2), None)
    case Lbu => Pattern(0x03, Some(4), None)
    case Lhu => Pattern(0x03, Some(5), None)
    case Fence => Pattern(0x0f, None, None)
    case Addi => Pattern(0x13, Some(0), Some(0))
    case Slli => Pattern(0x13, Some(1), Some(0))
    case Slti => Pattern(0x13, Some(2), Some(0))
    case Sltiu => Pattern(0x13, Some(3), Some(0))
    case Xori => Pattern(0x13, Some(4), Some(0))
    case Srli => Pattern(0x13, Some(5), Some(0))
    case Ori => Pattern(0x13, Some(6), Some(0))
    case Andi => Pattern(0x13, Some(7), Some(0))
    case Srai => Pattern(0x13, Some(5), Some(1))
    case Auipc => Pattern(0x17, None, None)
    case Sb => Pattern(0x23, Some(0), None)
    case Sh => Pattern(0x23, Some(1), None)
    case Sw => Pattern(0x23, Some(2), None)
    case Add => Pattern(0x33, Some(0), Some(0))
    case Sll => Pattern(0x33, Some(1), Some(0))
    case Slt => Pattern(0x33, Some(2), Some(0))
    case Sltu => Pattern(0x33, Some(3), Some(0))
    case Xor => Pattern(0x33, Some(4), Some(0))
    case Srl => Pattern(0x33, Some(5), Some(0))
    case Or => Pattern(0x33, Some(6), Some(0))
    case And => Pattern(0x33, Some(7), Some(0))
    case Mul => Pattern(0x33, Some(0), Some(1))
    case Mulh => Pattern(0x33, Some(1), Some(1))
    case Mulhsu => Pattern(0x33, Some(2), Some(1))
    case Mulhu => Pattern(0x33, Some(3), Some(1))
    case Div => Pattern(0x33, Some(4), Some(1))
    case Divu => Pattern(0x33, Some(5), Some(1))
    case Rem => Pattern(0x33, Some(6), Some(1))
    case Remu => Pattern(0x33, Some(7), Some(1))
    case Sub => Pattern(0x33, Some(0), Some(32))
    case Sra => Pattern(0x33, Some(5), Some(32))
    case Lui => Pattern(0x37, None, None)
    case Beq => Pattern(0x63, Some(0), None)
    case Bne => Pattern(0x63, Some(1), None)
    case Blt => Pattern(0x63, Some(4), None)
    case Bge => Pattern(0x63, Some(5), None)
    case Bltu => Pattern(0x63, Some(6), None)
    case Bgeu => Pattern(0x63, Some(7), None)
    case Jalr => Pattern(0x6f, None, None)
    case EcallEbreak => Pattern(0x73, Some(0), None)
    case Csrrw => Pattern(0x73, Some(1), None)
    case Csrrs => Pattern(0x73, Some(2), None)
    case Csrrc => Pattern(0x73, Some(3), None)
    case Csrrwi => Pattern(0x73, Some(5), None)
    case Csrrsi => Pattern(0x73, Some(6), None)
    case Csrrci => Pattern(0x73, Some(7), None)
    case Jal => Pattern(0x77, None, None)
  }

  /** The tables reach a handler on exactly the words of its pattern, and inv on exactly the
      words that no pattern fits: together they partition the words ending in 11. */
  lemma DecodePartition(w: u32)
    requires w % 4 == 3
    ensures Decode(w) != Inv ==> PatternOf(Decode(w)).Fits(w)
    ensures forall op: Op | op != Inv :: PatternOf(op).Fits(w) ==> Decode(w) == op
  {
    var c := Opcode(w);
    assert c == 4 * (c / 4) + 3;
    DispatchFits(c / 4, Func3(w), Func7(w));
    forall op: Op | op != Inv && PatternOf(op).Fits(w) ensures Decode(w) == op {
      FitsDecodes(op, w);
    }
  }

  predicate FitsAt(op: Op, c: nat, f3: nat, f7: nat) {
    op != Inv ==>
      && PatternOf(op).opcode == c
      && (PatternOf(op).f3.Some? ==> PatternOf(op).f3.value == f3)
      && (PatternOf(op).f7.Some? ==> PatternOf(op).f7.value == f7)
  }

  lemma DispatchFits(q: nat, f3: nat, f7: nat)
    ensures FitsAt(Dispatch(4 * q + 3, f3, f7), 4 * q + 3, f3, f7)
  {
    assert (4 * q + 3) / 4 == q;
    hide FitsAt;
    match OpcodeTable(q) {
      case ToLoad => LoadFits(f3, f7);
      case ToStore => StoreFits(f3, f7);
      case ToBranch => BranchFits(f3, f7);
      case ToAlui => AluiFits(f3, f7);
      case ToAlu => AluFits(f3, f7);
      case ToCsr => CsrFits(f3, f7);
      case Direct(op) => DirectFits(q, f3, f7);
    }
  }

  lemma LoadFits(f3: nat, f7: nat)
    ensures FitsAt(LoadTable(f3), 0x03, f3, f7)
  {
  }

  lemma StoreFits(f3: nat, f7: nat)
    ensures FitsAt(StoreTable(f3), 0x23, f3, f7)
  {
  }

  lemma BranchFits(f3: nat, f7: nat)
    ensures FitsAt(BranchTable(f3), 0x63, f3, f7)
  {
  }

  lemma CsrFits(f3: nat, f7: nat)
    ensures FitsAt(CsrTable(f3), 0x73, f3, f7)
  {
  }

  lemma DirectFits(q: nat, f3: nat, f7: nat)
    requires OpcodeTable(q).Direct?
    ensures FitsAt(OpcodeTable(q).op, 4 * q + 3, f3, f7)
  {
  }

  lemma AluiFits(f3: nat, f7: nat)
    ensures f7 == 0 ==> FitsAt(AluiTable0(f3), 0x13, f3, f7)
    ensures f7 == 1 ==> FitsAt(AluiTable32(f3), 0x13, f3, f7)
  {
  }

  lemma AluFits(f3: nat, f7: nat)
    ensures f7 == 0 ==> FitsAt(AluTable0(f3), 0x33, f3, f7)
    ensures f7 == 1 ==> FitsAt(AluTable1(f3), 0x33, f3, f7)
    ensures f7 == 32 ==> FitsAt(AluTable32(f3), 0x33, f3, f7)
  {
  }

  lemma FitsDecodes(op: Op, w: u32)
    requires op != Inv && PatternOf(op).Fits(w)
    ensures w % 4 == 3 && Decode(w) == op
  {
    hide Opcode;
    hide Func3;
    hide Func7;
    hide Dispatch;
    hide KindOf;
    FitsDispatch(op, Opcode(w), Func3(w), Func7(w));
    assert w % 4 == Opcode(w) % 4 by { OpcodeLow(w); }
  }

  lemma OpcodeLow(w: u32)
    ensures Opcode(w) % 4 == w % 4
  {
    ModOfMod(w, 4, 32);
  }

  lemma FitsDispatch(op: Op, c: nat, f3: nat, f7: nat)
    requires op != Inv && FitsAt(op, c, f3, f7)
    ensures c % 4 == 3 && Dispatch(c, f3, f7) == op
  {
    match KindOf(op) {
      case AluKind => AluDispatch(op, c, f3, f7);
      case AluiKind => AluiDispatch(op, c, f3, f7);
      case _ => OtherDispatch(op, c, f3, f7);
    }
  }

  lemma AluDispatch(op: Op, c: nat, f3: nat, f7: nat)
    requires KindOf(op) == AluKind && FitsAt(op, c, f3, f7)
    ensures c == 0x33 && Dispatch(c, f3, f7) == op
  {
  }

  lemma AluiDispatch(op: Op, c: nat, f3: nat, f7: nat)
    requires KindOf(op) == AluiKind && FitsAt(op, c, f3, f7)
    ensures c == 0x13 && Dispatch(c, f3, f7) == op
  {
  }

  lemma OtherDispatch(op: Op, c: nat, f3: nat, f7: nat)
    requires op != Inv && KindOf(op) != AluKind && KindOf(op) != AluiKind && FitsAt(op, c, f3, f7)
    ensures c % 4 == 3 && Dispatch(c, f3, f7) == op
  {
  }

  /** Assembly-level operands. */
  datatype Instr =
    | AluInstr(op: Op, rd: reg, rs1: reg, rs2: reg)
    | AluImmInstr(op: Op, rd: reg, rs1: reg, imm: int)
    | LoadInstr(op: Op, rd: reg, rs1: reg, off: int)
    | StoreInstr(op: Op, rs1: reg, rs2: reg, off: int)
    | BranchInstr(op: Op, rs1: reg, rs2: reg, off: int)
    | UpperInstr(op: Op, rd: reg, upper: nat)
    | CsrInstr(op: Op, rd: reg, rs1: reg, csr: csrno)
    | JalrInstr(op: Op, rd: reg, rs1: reg)
    | PlainInstr(op: Op)
  {
    /** Operands in range, and the operand shape of the handler. */
    predicate Valid() {
      match this
      case AluInstr(op, _, _, _) => KindOf(op) == AluKind
      case AluImmInstr(op, _, _, imm) => KindOf(op) == AluiKind && 0 <= imm < 32
      case LoadInstr(op, _, _, off) => KindOf(op) == LoadKind && -0x800 <= off < 0x800
      case StoreInstr(op, _, _, off) => KindOf(op) == StoreKind && -0x800 <= off < 0x800
      case BranchInstr(op, _, _, off) => KindOf(op) == BranchKind && -0x1000 <= off < 0x1000 && off % 2 == 0
      case UpperInstr(op, _, upper) => KindOf(op) == UpperKind && upper < 0x10_0000
      case CsrInstr(op, _, _, _) => KindOf(op) == CsrKind
      case JalrInstr(op, _, _) => KindOf(op) == JalrKind
      case PlainInstr(op) => KindOf(op) == NoneKind && op != Inv
    }
  }

  function F3(op: Op): (f: nat)
    requires op != Inv
    ensures f < 8
  {
    if PatternOf(op).f3.Some? then PatternOf(op).f3.value else 0
  }

  function F7(op: Op): (f: nat)
    requires op != Inv
    ensures f < 0x80
  {
    if PatternOf(op).f7.Some? then PatternOf(op).f7.value else 0
  }

  datatype Fields = Fields(rd: reg, f3: nat, rs1: reg, rs2: reg, f7: nat)

  /** Where the standard formats put the operands. */
  function Place(i: Instr): (r: Fields)
    requires i.Valid()
    ensures r.f3 < 8 && r.f7 < 0x80
    ensures PatternOf(i.op).f3.Some? ==> r.f3 == PatternOf(i.op).f3.value
    ensures PatternOf(i.op).f7.Some? ==> r.f7 == PatternOf(i.op).f7.value
  {
    var f3, f7 := F3(i.op), F7(i.op);
    match i
    case AluInstr(_, rd, rs1, rs2) => Fields(rd, f3, rs1, rs2, f7)
    case AluImmInstr(_, rd, rs1, imm) => Fields(rd, f3, rs1, imm, f7)
    case LoadInstr(_, rd, rs1, off) =>
      var u := if off < 0 then off + 0x1000 else off;
      Fields(rd, f3, rs1, u % 32, u / 32)
    case StoreInstr(_, rs1, rs2, off) =>
      var u := if off < 0 then off + 0x1000 else off;
      Fields(u % 32, f3, rs1, rs2, u / 32)
    case BranchInstr(_, rs1, rs2, off) =>
      var u := if off < 0 then off + 0x2000 else off;
      Fields(BranchRd(u), f3, rs1, rs2, BranchF7(u))
    case UpperInstr(_, rd, upper) => Fields(rd, upper % 8, upper / 8 % 32, upper / 256 % 32, upper / 8192)
    case CsrInstr(_, rd, rs1, csr) => Fields(rd, f3, rs1, csr % 32, csr / 32)
    case JalrInstr(_, rd, rs1) => Fields(rd, f3, rs1, 0, 0)
    case PlainInstr(_) => Fields(0, f3, 0, 0, 0)
  }

  lemma PatternOpcode(op: Op)
    requires op != Inv
    ensures PatternOf(op).opcode < 0x80 && PatternOf(op).opcode % 4 == 3
  {
  }

  /** The standard encoding of an instruction at the opcodes the tables use. */
  function Assemble(i: Instr): (w: u32)
    requires i.Valid()
  {
    PatternOpcode(i.op);
    var f := Place(i);
    Word(PatternOf(i.op).opcode, f.rd, f.f3, f.rs1, f.rs2, f.f7)
  }

  /** The operands a handler reads out of a word. */
  function Operands(w: u32): Instr {
    var op := Decode(w);
    match KindOf(op)
    case AluKind => AluInstr(op, Rd(w), Rs1(w), Rs2(w))
    case AluiKind => AluImmInstr(op, Rd(w), Rs1(w), if op.Slli? || op.Srli? || op.Srai? then Rs2(w) else SImm12(w))
    case LoadKind => LoadInstr(op, Rd(w), Rs1(w), SImm12(w))
    case StoreKind => StoreInstr(op, Rs1(w), Rs2(w), StoreImm(w))
    case BranchKind => BranchInstr(op, Rs1(w), Rs2(w), BranchImm(w))
    case UpperKind => UpperInstr(op, Rd(w), UImm20(w))
    case CsrKind => CsrInstr(op, Rd(w), Rs1(w), Imm12(w))
    case JalrKind => JalrInstr(op, Rd(w), Rs1(w))
    case NoneKind => PlainInstr(op)
  }

  /** What the handler sees: a negative store offset arrives 8192 too large. */
  function Seen(i: Instr): Instr {
    match i
    case StoreInstr(op, rs1, rs2, off) => StoreInstr(op, rs1, rs2, if off < 0 then off + 8192 else off)
    case _ => i
  }

  /** Every valid instruction survives encoding and table dispatch, up to Seen. */
  lemma DecodeRoundTrip(i: Instr)
    requires i.Valid()
    ensures Assemble(i) % 4 == 3
    ensures Operands(Assemble(i)) == Seen(i)
  {
    assert Assemble(i) % 4 == 3 by { AssembledFields(i); }
    match i {
      case StoreInstr(_, _, _, _) => StoreSeen(i);
      case BranchInstr(_, _, _, _) => BranchSeen(i);
      case LoadInstr(_, _, _, _) => LoadSeen(i);
      case AluImmInstr(_, _, _, _) => AluImmSeen(i);
      case CsrInstr(_, _, _, _) => CsrSeen(i);
      case UpperInstr(_, _, _) => UpperSeen(i);
      case AluInstr(_, _, _, _) => AluSeen(i);
      case JalrInstr(_, _, _) => JalrSeen(i);
      case PlainInstr(_) => PlainSeen(i);
    }
  }

  lemma AssembledFields(i: Instr)
    requires i.Valid()
    ensures var w, f := Assemble(i), Place(i);
            && w % 4 == 3 && Decode(w) == i.op
            && Rd(w) == f.rd && Rs1(w) == f.rs1 && Rs2(w) == f.rs2
            && Imm12(w) == f.rs2 + 32 * f.f7 && UImm20(w) == f.f3 + 8 * f.rs1 + 256 * f.rs2 + 8192 * f.f7
  {
    var f := Place(i);
    PatternOpcode(i.op);
    WordFields(PatternOf(i.op).opcode, f.rd, f.f3, f.rs1, f.rs2, f.f7);
    FitsDecodes(i.op, Assemble(i));
  }

  lemma StoreSeen(i: Instr)
    requires i.Valid() && i.StoreInstr?
    ensures Operands(Assemble(i)) == Seen(i)
  {
    AssembledFields(i);
    PatternOpcode(i.op);
    StoreImmStandard(PatternOf(i.op).opcode, F3(i.op), i.rs1, i.rs2, i.off);
    assert Assemble(i) == StoreWord(PatternOf(i.op).opcode, F3(i.op), i.rs1, i.rs2, i.off);
  }

  lemma BranchSeen(i: Instr)
    requires i.Valid() && i.BranchInstr?
    ensures Operands(Assemble(i)) == i
  {
    AssembledFields(i);
    PatternOpcode(i.op);
    BranchImmStandard(PatternOf(i.op).opcode, F3(i.op), i.rs1, i.rs2, i.off);
    assert Assemble(i) == BranchWord(PatternOf(i.op).opcode, F3(i.op), i.rs1, i.rs2, i.off);
  }

  lemma LoadSeen(i: Instr)
    requires i.Valid() && i.LoadInstr?
    ensures Operands(Assemble(i)) == i
  {
    AssembledFields(i);
    Unsplit12(if i.off < 0 then i.off + 0x1000 else i.off);
  }

  lemma AluImmSeen(i: Instr)
    requires i.Valid() && i.AluImmInstr?
    ensures Operands(Assemble(i)) == i
  {
    AssembledFields(i);
  }

  lemma CsrSeen(i: Instr)
    requires i.Valid() && i.CsrInstr?
    ensures Operands(Assemble(i)) == i
  {
    AssembledFields(i);
    Unsplit12(i.csr);
  }

  lemma UpperSeen(i: Instr)
    requires i.Valid() && i.UpperInstr?
    ensures Operands(Assemble(i)) == i
  {
    AssembledFields(i);
    UpperParts(i.upper);
  }

  lemma AluSeen(i: Instr)
    requires i.Valid() && i.AluInstr?
    ensures Operands(Assemble(i)) == i
  {
    AssembledFields(i);
  }

  lemma JalrSeen(i: Instr)
    requires i.Valid() && i.JalrInstr?
    ensures Operands(Assemble(i)) == i
  {
    AssembledFields(i);
  }

  lemma PlainSeen(i: Instr)
    requires i.Valid() && i.PlainInstr?
    ensures Operands(Assemble(i)) == i
  {
    var w := Assemble(i);
    assert Decode(w) == i.op by { AssembledFields(i); }
    assert Operands(w) == PlainInstr(i.op);
  }

  lemma Unsplit12(u: nat)
    ensures u == u % 32 + 32 * (u / 32)
  {
  }

  lemma UpperParts(u: nat)
    ensures u == u % 8 + 8 * (u / 8 % 32) + 256 * (u / 256 % 32) + 8192 * (u / 8192)
  {
    assert u / 256 == u / 8 / 32;
    assert u / 8192 == u / 256 / 32;
  }
}
