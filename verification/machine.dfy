// The CPU: the instruction handlers of exec-handlers.h and the run loop of cpu-exec.c, as functions of
// the machine state.

module Machine {
  import opened Words
  import opened Outcomes
  import opened Formats
  import opened Decoder
  import opened Alu
  import opened Ram
  import opened Uart
  import opened Board
  import opened TraceRing

  const CPU_INIT_PC: int := 0xbfc0_0000

  type Gprs = s: seq<u32> | |s| == 32 witness seq(32, _ => 0)
  type Csrs = s: seq<u32> | |s| == 4096 witness seq(4096, _ => 0)

  datatype CpuState = CpuState(gpr: Gprs, csr: Csrs, hi: u32, lo: u32, pc: u32)

  /** The second operand of an arithmetic handler. */
  function Operand2(c: CpuState, op: Op, w: u32): u32 {
    if KindOf(op) == AluKind then c.gpr[Rs2(w)]
    else if op.Slli? || op.Srli? || op.Srai? then Rs2(w)
    else if op.Sltiu? then Imm12(w)
    else Wrap(SImm12(w))
  }

  function ExecAlu(c: CpuState, op: Op, w: u32): Outcome<CpuState>
    requires KindOf(op) == AluKind || KindOf(op) == AluiKind
  {
    var a, b := c.gpr[Rs1(w)], Operand2(c, op, w);
    if DivisionDefined(op, a, b) then Ok(c.(gpr := c.gpr[Rd(w) := Value(op, a, b)])) else Dies(Undefined)
  }

  predicate Taken(op: Op, a: u32, b: u32) {
    match op
    case Beq | Bne => a == b
    case Blt => Signed(a) < Signed(b)
    case Bge => Signed(a) >= Signed(b)
    case Bltu => a < b
    case _ => a >= b
  }

  function ExecBranch(c: CpuState, op: Op, w: u32): CpuState {
    if Taken(op, c.gpr[Rs1(w)], c.gpr[Rs2(w)]) then c.(pc := Wrap(c.pc + 2 * BranchImm(w))) else c
  }

  function ExecUpper(c: CpuState, op: Op, w: u32): CpuState {
    match op
    case Lui => c.(gpr := c.gpr[Rd(w) := Wrap(0x1000 * UImm20(w))])
    case Auipc => c.(gpr := c.gpr[Rd(w) := Wrap(c.pc + 0x1000 * UImm20(w))])
    case _ => c.(gpr := c.gpr[Rd(w) := Wrap(c.pc + 4)], pc := Wrap(c.pc + 0x1000 * SUImm20(w)))
  }

  /** rd is written before rs1 is read. */
  function ExecJalr(c: CpuState, w: u32): CpuState {
    var g := c.gpr[Rd(w) := Wrap(c.pc + 4)];
    c.(gpr := g, pc := g[Rs1(w)])
  }

  /** Whether a CSR handler's guard lets it write. */
  predicate CsrWrites(op: Op, rdValue: u32, rs1: reg) {
    match op
    case Csrrci | Csrrsi => rs1 != 0
    case Csrrwi | Csrrw => rdValue != 0
    case _ => true
  }

  /** The value a CSR handler stores, given the old CSR value and its operand. */
  function CsrValue(op: Op, csr: u32, operand: u32): u32 {
    match op
    case Csrrci | Csrrc => Bitwise(AndNotOp, csr, operand)
    case Csrrsi | Csrrs => Bitwise(OrOp, csr, operand)
    case _ => operand
  }

  predicate CsrImmediate(op: Op) { op.Csrrci? || op.Csrrsi? || op.Csrrwi? }

  /** rd is written before rs1 is read. */
  function ExecCsr(c: CpuState, op: Op, w: u32): CpuState {
    var rd, rs1, n := Rd(w), Rs1(w), Imm12(w);
    if !CsrWrites(op, c.gpr[rd], rs1) then c
    else
      var g := c.gpr[rd := c.csr[n]];
      c.(gpr := g, csr := c.csr[n := CsrValue(op, c.csr[n], if CsrImmediate(op) then rs1 else g[rs1])])
  }

  function Width(op: Op): (n: alen)
    ensures n != 3
  {
    match op
    case Lh | Lhu | Sh => 2
    case Lw | Sw => 4
    case _ => 1
  }

  function Extend(op: Op, v: u32): u32 {
    match op
    case Lb => Wrap(SignedByte(v % 0x100))
    case Lh => Wrap(SignedHalf(v % 0x1_0000))
    case _ => v
  }

  function LoadAddr(c: CpuState, w: u32): u32 { Wrap(c.gpr[Rs1(w)] + SImm12(w)) }

  function StoreAddr(c: CpuState, w: u32): u32 { Wrap(c.gpr[Rs1(w)] + StoreImm(w)) }

  function ExecLoad(mode: Mode, c: CpuState, b: BoardState, op: Op, w: u32): Outcome<(CpuState, BoardState)> {
    var ea := LoadAddr(c, w);
    if ea % Width(op) != 0 then Dies(CpuAbort)
    else
      var r :- LoadMem(mode, b, ea, Width(op));
      Ok((c.(gpr := c.gpr[Rd(w) := Extend(op, r.1)]), r.0))
  }

  function ExecStore(mode: Mode, batch: bool, c: CpuState, b: BoardState, op: Op, w: u32): Outcome<BoardState> {
    var ea := StoreAddr(c, w);
    if ea % Width(op) != 0 then Dies(CpuAbort)
    else StoreMem(mode, b, ea, Width(op), c.gpr[Rs2(w)], batch)
  }

  /** One handler, from dispatch to the end-of-execution label. */
  function Execute(mode: Mode, batch: bool, c: CpuState, b: BoardState, w: u32): Outcome<(CpuState, BoardState)> {
    if w % 4 != 3 then Dies(OpcodeAssert)
    else
      var op := Decode(w);
      match KindOf(op)
      case AluKind | AluiKind =>
        var c' :- ExecAlu(c, op, w);
        Ok((c', b))
      case LoadKind => ExecLoad(mode, c, b, op, w)
      case StoreKind =>
        var b' :- ExecStore(mode, batch, c, b, op, w);
        Ok((c, b'))
      case BranchKind => Ok((ExecBranch(c, op, w), b))
      case CsrKind => Ok((ExecCsr(c, op, w), b))
      case UpperKind => Ok((ExecUpper(c, op, w), b))
      case JalrKind => Ok((ExecJalr(c, w), b))
      case NoneKind =>
        if op == Fence then Ok((c, b))
        else if op == EcallEbreak then Dies(EcallAssert)
        else Ok((c, b.(nemu := NemuEnd)))
  }

  /** One run of the timer handler: what the event poll returned. */
  datatype Poll = NoEvent | KeyPoll(ev: KeyEvent) | QuitPoll

  /** sched(t) lists the handler runs before the t-th instruction slot. */
  datatype Env = Env(batch: bool, ascii: int -> Text, sched: nat -> seq<Poll>)

  function HandlerRuns(u: UartState, polls: seq<Poll>, ascii: int -> Text): Outcome<UartState>
    decreases |polls|
  {
    if polls == [] then Ok(u)
    else
      match polls[0]
      case NoEvent => HandlerRuns(u, polls[1..], ascii)
      case KeyPoll(ev) => HandlerRuns(SerialEnqueue(u, ev, ascii), polls[1..], ascii)
      case QuitPoll => Dies(Exited)
  }

  datatype MachineState = MachineState(cpu: CpuState, board: BoardState, trace: seq<Entry>, clock: nat)

  datatype Result = Live(m: MachineState) | Dead(trace: seq<Entry>, why: Death)

  /** The rest of an iteration, given what the fetch returned. */
  function AfterFetch(mode: Mode, batch: bool, m: MachineState, fetched: Outcome<(BoardState, u32)>): Result {
    match fetched
    case Dies(why) => Dead(m.trace + [Entry(m.cpu.pc, None)], why)
    case Ok((b, w)) =>
      var trace := m.trace + [Entry(m.cpu.pc, Some(w))];
      match Execute(mode, batch, m.cpu, b, w)
      case Dies(why) => Dead(trace, why)
      case Ok((c, b')) => Live(MachineState(c.(pc := Wrap(c.pc + 4)), b', trace, m.clock + 1))
  }

  /** The part of an iteration after the handlers that belong to its slot have run. */
  function Step(mode: Mode, batch: bool, m: MachineState): Result {
    if m.cpu.pc % 4 != 0 then Dead(m.trace + [Entry(m.cpu.pc, None)], PcAssert)
    else AfterFetch(mode, batch, m, LoadMem(mode, m.board, m.cpu.pc, 4))
  }

  /** One iteration of the run loop. */
  function Tick(mode: Mode, env: Env, m: MachineState): Result {
    match HandlerRuns(m.board.uart, env.sched(m.clock), env.ascii)
    case Dies(why) => Dead(m.trace, why)
    case Ok(u) => Step(mode, env.batch, m.(board := m.board.(uart := u)))
  }

  function Loop(mode: Mode, env: Env, m: MachineState, n: nat): Result
    decreases n
  {
    if n == 0 then
      Live(if m.board.nemu == NemuRunning then m.(board := m.board.(nemu := NemuStop)) else m)
    else
      match Tick(mode, env, m)
      case Dead(trace, why) => Dead(trace, why)
      case Live(m') => if m'.board.nemu != NemuRunning then Live(m') else Loop(mode, env, m', n - 1)
  }

  function Start(m: MachineState): MachineState {
    m.(board := m.board.(nemu := NemuRunning))
  }

  /** cpu_exec */
  function CpuExec(mode: Mode, env: Env, m: MachineState, n: nat): Result {
    if m.board.nemu == NemuEnd then Live(m) else Loop(mode, env, Start(m), n)
  }
}
