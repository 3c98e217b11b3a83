// Properties of whole runs of cpu_exec.

module Runs {
  import opened Words
  import opened Outcomes
  import opened Formats
  import opened Decoder
  import opened AddressMap
  import opened Ram
  import opened Uart
  import opened Video
  import opened Board
  import opened TraceRing
  import opened Machine

  // The fast path refines the table-driven path.

  lemma ExecuteModes(batch: bool, c: CpuState, b: BoardState, w: u32)
    ensures Execute(Fast, batch, c, b, w) == Execute(Slow, batch, c, b, w)
  {
    var op := Decode(w);
    if KindOf(op) == LoadKind && LoadAddr(c, w) % Width(op) == 0 {
      LoadPathsAgree(b, LoadAddr(c, w), Width(op));
    } else if KindOf(op) == StoreKind && StoreAddr(c, w) % Width(op) == 0 {
      StorePathsAgree(b, StoreAddr(c, w), Width(op), c.gpr[Rs2(w)], batch);
    }
  }

  lemma AfterFetchModes(batch: bool, m: MachineState, f: Outcome<(BoardState, u32)>)
    ensures AfterFetch(Fast, batch, m, f) == AfterFetch(Slow, batch, m, f)
  {
    hide Execute;
    if f.Ok? { ExecuteModes(batch, m.cpu, f.value.0, f.value.1); }
  }

  lemma StepModes(batch: bool, m: MachineState)
    ensures Step(Fast, batch, m) == Step(Slow, batch, m)
  {
    if m.cpu.pc % 4 == 0 {
      LoadPathsAgree(m.board, m.cpu.pc, 4);
      AfterFetchModes(batch, m, LoadMem(Fast, m.board, m.cpu.pc, 4));
    }
  }

  lemma TickModes(env: Env, m: MachineState)
    ensures Tick(Fast, env, m) == Tick(Slow, env, m)
  {
    var u := HandlerRuns(m.board.uart, env.sched(m.clock), env.ascii);
    if u.Ok? { StepModes(env.batch, m.(board := m.board.(uart := u.value))); }
  }

  lemma {:induction false} LoopModes(env: Env, m: MachineState, n: nat)
    ensures Loop(Fast, env, m, n) == Loop(Slow, env, m, n)
    decreases n
  {
    hide Tick;
    if n > 0 {
      TickModes(env, m);
      var t := Tick(Fast, env, m);
      if t.Live? { LoopModes(env, t.m, n - 1); }
    }
  }

  /** For every program, start state, event schedule and n, the run through load_mem and store_mem is the
      run that sends every access through the table: same registers, memory, devices, trace and outcome. */
  lemma FastPathRefinesTable(env: Env, m: MachineState, n: nat)
    ensures CpuExec(Fast, env, m, n) == CpuExec(Slow, env, m, n)
  {
    LoopModes(env, Start(m), n);
  }

  // What one step does to the emulator state, to RAM and to the CPU.

  /** Loads change no RAM, no firmware state and not the emulator state. */
  lemma LoadMemFrame(mode: Mode, b: BoardState, addr: u32, len: alen)
    ensures LoadMem(mode, b, addr, len).Ok? ==>
              LoadMem(mode, b, addr, len).value.0 == b.(uart := LoadMem(mode, b, addr, len).value.0.uart)
  {
  }

  /** Video memory is larger than the region through which the guest reaches it. */
  predicate InVmem(pa: int) { VGA_BASE <= pa < VGA_BASE + VMEM_SIZE }

  predicate InRam(pa: int) { InDdr(pa) || InBram(pa) || InVmem(pa) }

  /** The byte of DDR, BRAM or video memory at a physical address (0 outside them). */
  function RamByte(b: BoardState, pa: int): byte {
    if InDdr(pa) then b.ddr[pa - DDR_BASE]
    else if InBram(pa) then b.bram[pa - BRAM_BASE]
    else if InVmem(pa) then b.vmem[pa - VGA_BASE]
    else 0
  }

  predicate AtGpio(addr: u32) {
    GPIO_BASE <= ProtAddr(addr) < GPIO_BASE + GPIO_SIZE
  }

  lemma DeviceWriteFrame(b: BoardState, dev: Device, off: nat, len: alen, data: u32, batch: bool)
    ensures var r := DeviceWrite(b, dev, off, len, data, batch);
            r.Ok? ==>
              && r.value.nemu == (if dev == Gpio then NemuEnd else b.nemu)
              && (dev != Ddr ==> r.value.ddr == b.ddr) && (dev != Bram ==> r.value.bram == b.bram)
              && (dev != Vga ==> r.value.vmem == b.vmem)
              && (forall i | 0 <= i < AddressMap.DDR_SIZE && !(off <= i < off + len) :: r.value.ddr[i] == b.ddr[i])
              && (forall i | 0 <= i < AddressMap.BRAM_SIZE && !(off <= i < off + len) :: r.value.bram[i] == b.bram[i])
              && (forall i | 0 <= i < VMEM_SIZE && !(off <= i < off + len) :: r.value.vmem[i] == b.vmem[i])
  {
    hide LeBytes;
  }

  lemma RegionOf(pa: u32)
    ensures Lookup(MMAP, pa).Some? ==>
              var r := Lookup(MMAP, pa).value;
              && (r.dev == Ddr <==> InDdr(pa)) && (r.dev == Bram <==> InBram(pa))
              && (r.dev == Gpio <==> GPIO_BASE <= pa < GPIO_BASE + GPIO_SIZE)
              && (r.dev == Vga <==> InVga(pa))
              && (r.dev == Ddr ==> r.start == DDR_BASE) && (r.dev == Bram ==> r.start == BRAM_BASE)
              && (r.dev == Vga ==> r.start == VGA_BASE)
  {
    MmapCases(pa);
    assert forall r: Region | r in MMAP ::
        r == MMAP[0] || r == MMAP[1] || r == MMAP[2] || r == MMAP[3] || r == MMAP[4] || r == MMAP[5] || r == MMAP[6];
  }

  /** A store through the table changes only the RAM bytes it names. */
  lemma VaddrWriteFrame(b: BoardState, addr: u32, len: alen, data: u32, batch: bool)
    ensures var r := VaddrWrite(b, addr, len, data, batch);
            r.Ok? ==>
              && r.value.nemu == (if AtGpio(addr) then NemuEnd else b.nemu)
              && forall pa | InRam(pa) && !(ProtAddr(addr) <= pa < ProtAddr(addr) + len) :: RamByte(r.value, pa) == RamByte(b, pa)
  {
    hide ProtAddr;
    hide LookupFrom;
    hide DeviceWrite;
    var pa := ProtAddr(addr);
    RegionOf(pa);
    if Lookup(MMAP, pa).Some? {
      var g := Lookup(MMAP, pa).value;
      DeviceWriteFrame(b, g.dev, pa - g.start, len, data, batch);
    }
  }

  /** A store changes only the RAM bytes it names, and ends the run exactly when it hits the GPIO. */
  lemma StoreMemFrame(mode: Mode, b: BoardState, addr: u32, len: alen, data: u32, batch: bool)
    ensures var r := StoreMem(mode, b, addr, len, data, batch);
            r.Ok? ==>
              && r.value.nemu == (if AtGpio(addr) then NemuEnd else b.nemu)
              && forall pa | InRam(pa) && !(ProtAddr(addr) <= pa < ProtAddr(addr) + len) :: RamByte(r.value, pa) == RamByte(b, pa)
  {
    hide ProtAddr;
    hide VaddrWrite;
    VaddrWriteFrame(b, addr, len, data, batch);
  }

  /** The register a handler may write. */
  function Dest(w: u32): Option<reg> {
    match KindOf(Decode(w))
    case StoreKind | BranchKind | NoneKind => None
    case _ => Some(Rd(w))
  }

  function CsrNamed(w: u32): Option<csrno> {
    if KindOf(Decode(w)) == CsrKind then Some(Imm12(w)) else None
  }

  /** Registers change only through an instruction that names them; hi and lo never change. */
  ghost predicate CpuFrame(c: CpuState, c': CpuState, w: u32) {
    && c'.hi == c.hi && c'.lo == c.lo
    && (forall r: reg | Dest(w) != Some(r) :: c'.gpr[r] == c.gpr[r])
    && (forall n: csrno | CsrNamed(w) != Some(n) :: c'.csr[n] == c.csr[n])
  }

  lemma ExecuteCpuFrame(mode: Mode, batch: bool, c: CpuState, b: BoardState, w: u32)
    requires Execute(mode, batch, c, b, w).Ok?
    ensures CpuFrame(c, Execute(mode, batch, c, b, w).value.0, w)
  {
    hide Decode;
    hide LoadMem;
    hide StoreMem;
    hide Alu.Value;
    hide CsrValue;
    hide Extend;
  }

  predicate Within(p: int, pa: u32, len: alen) {
    pa <= p < pa + len
  }

  function Span(pa: u32, len: alen): (s: set<int>)
    ensures forall p: int :: p in s <==> pa <= p < pa + len
  {
    set p: int | pa <= p < pa + len && Within(p, pa, len)
  }

  /** The RAM and device addresses a step's store names. */
  function StoreFootprint(c: CpuState, w: u32): set<int> {
    if w % 4 == 3 && KindOf(Decode(w)) == StoreKind then
      Span(ProtAddr(StoreAddr(c, w)), Width(Decode(w)))
    else {}
  }

  /** The step ends the run: the invalid handler, or a store to the GPIO. */
  predicate Ends(c: CpuState, w: u32) {
    Decode(w) == Inv || (KindOf(Decode(w)) == StoreKind && AtGpio(StoreAddr(c, w)))
  }

  /** RAM changes only where the store points, and the run ends only where Ends says. */
  ghost predicate BoardFrame(c: CpuState, b: BoardState, b': BoardState, w: u32) {
    && b'.nemu == (if Ends(c, w) then NemuEnd else b.nemu)
    && forall pa | InRam(pa) && pa !in StoreFootprint(c, w) :: RamByte(b', pa) == RamByte(b, pa)
  }

  lemma ExecuteBoardFrame(mode: Mode, batch: bool, c: CpuState, b: BoardState, w: u32)
    requires Execute(mode, batch, c, b, w).Ok?
    ensures BoardFrame(c, b, Execute(mode, batch, c, b, w).value.1, w)
  {
    hide Decode;
    hide LoadMem;
    hide StoreMem;
    hide ExecAlu;
    hide ExecBranch;
    hide ExecUpper;
    hide ExecJalr;
    hide ExecCsr;
    var op := Decode(w);
    if KindOf(op) == LoadKind {
      LoadMemFrame(mode, b, LoadAddr(c, w), Width(op));
    } else if KindOf(op) == StoreKind {
      StoreMemFrame(mode, b, StoreAddr(c, w), Width(op), c.gpr[Rs2(w)], batch);
    }
  }

  /** Where execution goes: a multiple of four, except after a jalr through a misaligned register. */
  lemma ExecutePc(mode: Mode, batch: bool, c: CpuState, b: BoardState, w: u32)
    requires Execute(mode, batch, c, b, w).Ok? && c.pc % 4 == 0
    ensures var c' := Execute(mode, batch, c, b, w).value.0;
            c'.pc % 4 == 0 || (Decode(w) == Jalr && c'.pc == c'.gpr[Rs1(w)])
  {
    BranchPc(c, Decode(w), w);
  }

  /** The doubled branch immediate and the shifted upper immediate are multiples of four. */
  lemma BranchMultiple(w: u32)
    ensures 2 * BranchImm(w) % 4 == 0 && 0x1000 * SUImm20(w) % 4 == 0
  {
    FourTimes(w / 0x100 % 16 + 16 * (w / 0x200_0000 % 64) + 0x400 * (w / 0x80 % 2) - 0x800 * (w / 0x8000_0000));
    FourTimes(0x400 * SUImm20(w));
  }

  lemma FourTimes(k: int)
    ensures 4 * k % 4 == 0
  {
  }

  lemma AddMultiple(pc: u32, d: int)
    requires pc % 4 == 0 && d % 4 == 0
    ensures Wrap(pc + d) % 4 == 0
  {
    var x := pc + d;
    DivModUnique(x, 4, pc / 4 + d / 4, 0);
    ModOfMod(x, 4, 0x4000_0000);
  }

  lemma BranchPc(c: CpuState, op: Op, w: u32)
    requires c.pc % 4 == 0
    ensures ExecBranch(c, op, w).pc % 4 == 0 && ExecUpper(c, op, w).pc % 4 == 0
  {
    BranchMultiple(w);
    AddMultiple(c.pc, 2 * BranchImm(w));
    AddMultiple(c.pc, 0x1000 * SUImm20(w));
  }

  // One step, in terms of the instruction word it fetched.

  /** A live step fetched a word and executed it. */
  lemma LiveStep(mode: Mode, batch: bool, m: MachineState)
    requires Step(mode, batch, m).Live?
    ensures var f := LoadMem(mode, m.board, m.cpu.pc, 4);
            && f.Ok? && m.cpu.pc % 4 == 0
            && var (b, w) := f.value;
            && Execute(mode, batch, m.cpu, b, w).Ok?
            && var (c', b') := Execute(mode, batch, m.cpu, b, w).value;
            && Step(mode, batch, m).m ==
               MachineState(c'.(pc := Wrap(c'.pc + 4)), b', m.trace + [Entry(m.cpu.pc, Some(w))], m.clock + 1)
  {
    hide Execute;
    hide LoadMem;
  }

  function NextPc(pc: u32): u32 { Wrap(pc + 4) }

  /** The pc after a step is aligned, unless the step was a jalr through a misaligned register. */
  predicate PcRule(c': CpuState, w: u32) {
    c'.pc % 4 == 0 || (Decode(w) == Jalr && c'.gpr[Rs1(w)] % 4 != 0 && c'.pc == NextPc(c'.gpr[Rs1(w)]))
  }

  /** What a live step that executes w may change. */
  ghost predicate StepFrame(m: MachineState, m': MachineState, w: u32) {
    && m'.trace == m.trace + [Entry(m.cpu.pc, Some(w))]
    && CpuFrame(m.cpu, m'.cpu, w)
    && BoardFrame(m.cpu, m.board, m'.board, w)
    && PcRule(m'.cpu, w)
  }

  lemma PcRuleNext(c': CpuState, w: u32)
    requires c'.pc % 4 == 0 || (Decode(w) == Jalr && c'.pc == c'.gpr[Rs1(w)])
    ensures PcRule(c'.(pc := Wrap(c'.pc + 4)), w)
  {
    if c'.pc % 4 == 0 { AddMultiple(c'.pc, 4); }
  }

  lemma LoadKeepsRam(mode: Mode, c: CpuState, m: BoardState, addr: u32, len: alen, b': BoardState, w: u32)
    requires LoadMem(mode, m, addr, len).Ok? && BoardFrame(c, LoadMem(mode, m, addr, len).value.0, b', w)
    ensures BoardFrame(c, m, b', w)
  {
    hide LoadMem;
    hide StoreFootprint;
    hide Ends;
    LoadMemFrame(mode, m, addr, len);
  }

  lemma StepFrames(mode: Mode, batch: bool, m: MachineState) returns (w: u32)
    requires Step(mode, batch, m).Live?
    ensures StepFrame(m, Step(mode, batch, m).m, w)
  {
    hide Execute;
    hide LoadMem;
    hide BoardFrame;
    LiveStep(mode, batch, m);
    var b := LoadMem(mode, m.board, m.cpu.pc, 4).value.0;
    w := LoadMem(mode, m.board, m.cpu.pc, 4).value.1;
    ExecuteCpuFrame(mode, batch, m.cpu, b, w);
    ExecuteBoardFrame(mode, batch, m.cpu, b, w);
    ExecutePc(mode, batch, m.cpu, b, w);
    var (c', b') := Execute(mode, batch, m.cpu, b, w).value;
    PcRuleNext(c', w);
    LoadKeepsRam(mode, m.cpu, m.board, m.cpu.pc, 4, b', w);
  }

  lemma TickFrames(mode: Mode, env: Env, m: MachineState) returns (w: u32)
    requires Tick(mode, env, m).Live?
    ensures StepFrame(m, Tick(mode, env, m).m, w)
  {
    hide Step;
    hide CpuFrame;
    hide PcRule;
    hide StoreFootprint;
    hide Ends;
    var u := HandlerRuns(m.board.uart, env.sched(m.clock), env.ascii).value;
    w := StepFrames(mode, env.batch, m.(board := m.board.(uart := u)));
  }

  // Run splitting.

  /** A second call of cpu_exec after a first one. */
  function Then(mode: Mode, env: Env, r: Result, n: nat): Result {
    match r
    case Dead(trace, why) => Dead(trace, why)
    case Live(m) => CpuExec(mode, env, m, n)
  }

  /** A running machine keeps running or ends; only cpu_exec itself stops it. */
  lemma TickKeepsRunning(mode: Mode, env: Env, m: MachineState)
    requires m.board.nemu == NemuRunning && Tick(mode, env, m).Live?
    ensures Tick(mode, env, m).m.board.nemu in {NemuRunning, NemuEnd}
  {
    hide Tick;
    hide Ends;
    var w := TickFrames(mode, env, m);
  }

  function Stopped(m: MachineState): MachineState {
    m.(board := m.board.(nemu := NemuStop))
  }

  lemma StartStopped(m: MachineState)
    requires m.board.nemu == NemuRunning
    ensures Start(Stopped(m)) == m
  {
  }

  lemma {:induction false} LoopSplit(mode: Mode, env: Env, m: MachineState, a: nat, b: nat)
    requires m.board.nemu == NemuRunning
    ensures Loop(mode, env, m, a + b) == Then(mode, env, Loop(mode, env, m, a), b)
    decreases a
  {
    hide Tick;
    hide Start;
    if a == 0 {
      assert Loop(mode, env, m, 0) == Live(Stopped(m));
      StartStopped(m);
    } else {
      var t := Tick(mode, env, m);
      if t.Live? {
        TickKeepsRunning(mode, env, m);
        if t.m.board.nemu == NemuRunning {
          LoopSplit(mode, env, t.m, a - 1, b);
          assert Loop(mode, env, m, a + b) == Loop(mode, env, t.m, a - 1 + b);
        } else {
          assert Loop(mode, env, m, a + b) == Live(t.m);
        }
      }
    }
  }

  /** cpu_exec(a) followed by cpu_exec(b) is cpu_exec(a + b), also when either ends early. */
  lemma RunSplitting(mode: Mode, env: Env, m: MachineState, a: nat, b: nat)
    ensures CpuExec(mode, env, m, a + b) == Then(mode, env, CpuExec(mode, env, m, a), b)
  {
    if m.board.nemu != NemuEnd { LoopSplit(mode, env, Start(m), a, b); }
  }

  // Whole-run frames.

  predicate NamesReg(s: seq<Entry>, r: reg) {
    exists i :: 0 <= i < |s| && s[i].instr.Some? && Dest(s[i].instr.value) == Some(r)
  }

  predicate NamesCsr(s: seq<Entry>, n: csrno) {
    exists i :: 0 <= i < |s| && s[i].instr.Some? && CsrNamed(s[i].instr.value) == Some(n)
  }

  /** The addresses named by the stores that a run executes. */
  function Stores(mode: Mode, env: Env, m: MachineState, n: nat): set<int>
    decreases n
  {
    if n == 0 then {}
    else
      match Tick(mode, env, m)
      case Dead(_, _) => {}
      case Live(m') =>
        var e := m'.trace[|m'.trace| - 1];
        (if e.instr.Some? then StoreFootprint(m.cpu, e.instr.value) else {}) +
        (if m'.board.nemu != NemuRunning then {} else Stores(mode, env, m', n - 1))
  }

  lemma StoresUnfold(mode: Mode, env: Env, m: MachineState, n: nat, w: u32)
    requires n > 0 && Tick(mode, env, m).Live? && Tick(mode, env, m).m.trace == m.trace + [Entry(m.cpu.pc, Some(w))]
    ensures StoreFootprint(m.cpu, w) <= Stores(mode, env, m, n)
    ensures var m' := Tick(mode, env, m).m;
            m'.board.nemu == NemuRunning ==> Stores(mode, env, m', n - 1) <= Stores(mode, env, m, n)
  {
    hide Tick;
    hide StoreFootprint;
  }

  /** What any number of steps may change: the registers and CSRs that executed instructions name, and
      the RAM bytes that executed stores name.  hi and lo never change. */
  ghost predicate RunFrame(m: MachineState, m': MachineState, stores: set<int>) {
    && m.trace <= m'.trace
    && m'.cpu.hi == m.cpu.hi && m'.cpu.lo == m.cpu.lo
    && (forall r: reg | !NamesReg(m'.trace[|m.trace|..], r) :: m'.cpu.gpr[r] == m.cpu.gpr[r])
    && (forall n: csrno | !NamesCsr(m'.trace[|m.trace|..], n) :: m'.cpu.csr[n] == m.cpu.csr[n])
    && (forall pa | InRam(pa) && pa !in stores :: RamByte(m'.board, pa) == RamByte(m.board, pa))
  }

  lemma NamesCons(e: Entry, s: seq<Entry>, r: reg, n: csrno)
    ensures NamesReg([e] + s, r) <==> NamesReg(s, r) || (e.instr.Some? && Dest(e.instr.value) == Some(r))
    ensures NamesCsr([e] + s, n) <==> NamesCsr(s, n) || (e.instr.Some? && CsrNamed(e.instr.value) == Some(n))
  {
    hide Dest;
    hide CsrNamed;
    var t := [e] + s;
    assert t[0] == e;
    assert forall i | 0 <= i < |s| :: t[i + 1] == s[i];
    if NamesReg(s, r) {
      var i :| 0 <= i < |s| && s[i].instr.Some? && Dest(s[i].instr.value) == Some(r);
      assert t[i + 1].instr.Some? && Dest(t[i + 1].instr.value) == Some(r);
    }
    if NamesCsr(s, n) {
      var i :| 0 <= i < |s| && s[i].instr.Some? && CsrNamed(s[i].instr.value) == Some(n);
      assert t[i + 1].instr.Some? && CsrNamed(t[i + 1].instr.value) == Some(n);
    }
    if NamesReg(t, r) {
      var i :| 0 <= i < |t| && t[i].instr.Some? && Dest(t[i].instr.value) == Some(r);
      if i > 0 { assert s[i - 1] == t[i]; }
    }
    if NamesCsr(t, n) {
      var i :| 0 <= i < |t| && t[i].instr.Some? && CsrNamed(t[i].instr.value) == Some(n);
      if i > 0 { assert s[i - 1] == t[i]; }
    }
  }

  lemma FrameTrans(m: MachineState, w: u32, m1: MachineState, m2: MachineState, stores: set<int>, rest: set<int>)
    requires StepFrame(m, m1, w) && RunFrame(m1, m2, rest)
    requires StoreFootprint(m.cpu, w) <= stores && rest <= stores
    ensures RunFrame(m, m2, stores)
  {
    hide PcRule;
    hide StoreFootprint;
    hide Ends;
    hide Dest;
    hide CsrNamed;
    hide NamesReg;
    hide NamesCsr;
    var e := Entry(m.cpu.pc, Some(w));
    var tail := m2.trace[|m1.trace|..];
    assert m2.trace[|m.trace|..] == [e] + tail;
    forall r: reg | !NamesReg(m2.trace[|m.trace|..], r) ensures m2.cpu.gpr[r] == m.cpu.gpr[r] {
      NamesCons(e, tail, r, 0);
    }
    forall n: csrno | !NamesCsr(m2.trace[|m.trace|..], n) ensures m2.cpu.csr[n] == m.cpu.csr[n] {
      NamesCons(e, tail, 0, n);
    }
  }

  lemma {:induction false} LoopFrame(mode: Mode, env: Env, m: MachineState, n: nat)
    requires Loop(mode, env, m, n).Live?
    ensures RunFrame(m, Loop(mode, env, m, n).m, Stores(mode, env, m, n))
    decreases n
  {
    hide Tick;
    hide StepFrame;
    if n > 0 {
      var m1 := Tick(mode, env, m).m;
      var w := TickFrames(mode, env, m);
      assert m1.trace == m.trace + [Entry(m.cpu.pc, Some(w))] by { StepFrameTrace(m, m1, w); }
      StoresUnfold(mode, env, m, n, w);
      if m1.board.nemu == NemuRunning {
        LoopFrame(mode, env, m1, n - 1);
        FrameTrans(m, w, m1, Loop(mode, env, m, n).m, Stores(mode, env, m, n), Stores(mode, env, m1, n - 1));
      } else {
        FrameTrans(m, w, m1, m1, Stores(mode, env, m, n), {});
      }
    }
  }

  lemma StepFrameTrace(m: MachineState, m': MachineState, w: u32)
    requires StepFrame(m, m', w)
    ensures m'.trace == m.trace + [Entry(m.cpu.pc, Some(w))]
  {
  }

  /** Run frame for cpu_exec. */
  lemma RunFrames(mode: Mode, env: Env, m: MachineState, n: nat)
    requires CpuExec(mode, env, m, n).Live?
    ensures RunFrame(m, CpuExec(mode, env, m, n).m, if m.board.nemu == NemuEnd then {} else Stores(mode, env, Start(m), n))
  {
    hide Loop;
    hide Stores;
    if m.board.nemu != NemuEnd {
      LoopFrame(mode, env, Start(m), n);
    }
  }

  lemma {:induction false} LoopLength(mode: Mode, env: Env, m: MachineState, n: nat)
    requires m.board.nemu == NemuRunning && Loop(mode, env, m, n).Live?
    ensures var m' := Loop(mode, env, m, n).m;
            && |m.trace| <= |m'.trace| <= |m.trace| + n
            && ((m'.board.nemu == NemuStop && |m'.trace| == |m.trace| + n) || m'.board.nemu == NemuEnd)
    decreases n
  {
    hide Tick;
    hide StepFrame;
    if n > 0 {
      var m1 := Tick(mode, env, m).m;
      var w := TickFrames(mode, env, m);
      StepFrameTrace(m, m1, w);
      TickKeepsRunning(mode, env, m);
      if m1.board.nemu == NemuRunning { LoopLength(mode, env, m1, n - 1); }
    }
  }

  /** A live cpu_exec(n) either stops after exactly n instructions or ends, after at most n. */
  lemma RunLength(mode: Mode, env: Env, m: MachineState, n: nat)
    ensures var r := CpuExec(mode, env, m, n);
            m.board.nemu != NemuEnd && r.Live? ==>
              && |m.trace| <= |r.m.trace| <= |m.trace| + n
              && ((r.m.board.nemu == NemuStop && |r.m.trace| == |m.trace| + n) || r.m.board.nemu == NemuEnd)
  {
    hide Loop;
    if m.board.nemu != NemuEnd && CpuExec(mode, env, m, n).Live? {
      LoopLength(mode, env, Start(m), n);
    }
  }

  lemma {:induction false} LoopLastLive(mode: Mode, env: Env, m: MachineState, n: nat) returns (k: nat)
    requires m.board.nemu == NemuRunning && Loop(mode, env, m, n).Dead?
    ensures k < n && Loop(mode, env, m, k).Live?
    ensures Tick(mode, env, Start(Loop(mode, env, m, k).m)) == Loop(mode, env, m, n)
    decreases n
  {
    hide Tick;
    hide Start;
    var t := Tick(mode, env, m);
    if t.Dead? {
      k := 0;
      assert Loop(mode, env, m, 0) == Live(Stopped(m));
      StartStopped(m);
    } else {
      TickKeepsRunning(mode, env, m);
      k := LoopLastLive(mode, env, t.m, n - 1);
      k := k + 1;
    }
  }

  /** A run that ends the process is a live run, whose state both paths agree on and RunFrame describes,
      and one more iteration, which ends the process. */
  lemma LastLivePrefix(mode: Mode, env: Env, m: MachineState, n: nat) returns (k: nat)
    requires CpuExec(mode, env, m, n).Dead?
    ensures k < n && CpuExec(mode, env, m, k).Live?
    ensures CpuExec(Fast, env, m, k) == CpuExec(Slow, env, m, k)
    ensures RunFrame(m, CpuExec(mode, env, m, k).m, Stores(mode, env, Start(m), k))
    ensures Tick(mode, env, Start(CpuExec(mode, env, m, k).m)) == CpuExec(mode, env, m, n)
  {
    hide Loop;
    hide Tick;
    hide Stores;
    hide RunFrame;
    k := LoopLastLive(mode, env, Start(m), n);
    FastPathRefinesTable(env, m, k);
    RunFrames(mode, env, m, k);
  }

  /** gpr[0] is ordinary storage, but it keeps the value 0 through any run that executes no instruction
      with destination 0. */
  lemma ZeroRegister(mode: Mode, env: Env, m: MachineState, n: nat, m': MachineState)
    requires CpuExec(mode, env, m, n) == Live(m') && m.cpu.gpr[0] == 0
    requires forall i | |m.trace| <= i < |m'.trace| && m'.trace[i].instr.Some? :: Dest(m'.trace[i].instr.value) != Some(0)
    ensures m'.cpu.gpr[0] == 0
  {
    hide CpuExec;
    hide Dest;
    RunFrames(mode, env, m, n);
    assert !NamesReg(m'.trace[|m.trace|..], 0);
  }

  // The trace and the pc over whole runs.

  /** Every entry has its instruction word. */
  predicate Complete(s: seq<Entry>) {
    forall i | 0 <= i < |s| :: s[i].instr.Some?
  }

  /** How a step that ends the process ends: its entry lacks the word exactly when the fetch did not
      complete. */
  ghost predicate DeadStep(trace: seq<Entry>, m: MachineState, why: Death) {
    || (exists w: u32 :: trace == m.trace + [Entry(m.cpu.pc, Some(w))] && m.cpu.pc % 4 == 0 && why != PcAssert)
    || (trace == m.trace + [Entry(m.cpu.pc, None)] && (why == PcAssert <==> m.cpu.pc % 4 != 0))
    || (trace == m.trace && why == Exited)
  }

  lemma LoadDeath(mode: Mode, b: BoardState, addr: u32, len: alen)
    ensures LoadMem(mode, b, addr, len).Dies? ==> LoadMem(mode, b, addr, len).why in {CpuAbort, Undefined}
  {
  }

  lemma ExecuteDeath(mode: Mode, batch: bool, c: CpuState, b: BoardState, w: u32)
    ensures Execute(mode, batch, c, b, w) != Dies(PcAssert)
  {
    hide VaddrRead;
    hide VaddrWrite;
    hide LoadMem;
    var op := Decode(w);
    LoadDeath(mode, b, LoadAddr(c, w), Width(op));
    StoreDeath(mode, batch, c, b, w);
  }

  lemma StoreDeath(mode: Mode, batch: bool, c: CpuState, b: BoardState, w: u32)
    ensures ExecStore(mode, batch, c, b, Decode(w), w) != Dies(PcAssert)
  {
  }

  lemma {:induction false} HandlersDeath(u: UartState, polls: seq<Poll>, ascii: int -> Text)
    ensures HandlerRuns(u, polls, ascii).Dies? ==> HandlerRuns(u, polls, ascii).why == Exited
    decreases |polls|
  {
    if polls != [] && !polls[0].QuitPoll? {
      HandlersDeath(if polls[0].NoEvent? then u else SerialEnqueue(u, polls[0].ev, ascii), polls[1..], ascii);
    }
  }

  /** A handler run exits the process exactly when one of its polls returns SDL_QUIT. */
  lemma {:induction false} QuitExits(u: UartState, polls: seq<Poll>, ascii: int -> Text)
    ensures HandlerRuns(u, polls, ascii) == Dies(Exited) <==> exists i :: 0 <= i < |polls| && polls[i].QuitPoll?
    decreases |polls|
  {
    hide SerialEnqueue;
    if polls != [] && !polls[0].QuitPoll? {
      var rest := polls[1..];
      QuitExits(if polls[0].NoEvent? then u else SerialEnqueue(u, polls[0].ev, ascii), rest, ascii);
      assert (exists i :: 0 <= i < |polls| && polls[i].QuitPoll?) <==> (exists i :: 0 <= i < |rest| && rest[i].QuitPoll?) by {
        forall i | 0 <= i < |rest| && rest[i].QuitPoll? ensures polls[i + 1].QuitPoll? {
        }
        forall i | 0 <= i < |polls| && polls[i].QuitPoll? ensures i > 0 && rest[i - 1].QuitPoll? {
        }
      }
    }
  }

  lemma TickDeath(mode: Mode, env: Env, m: MachineState)
    requires Tick(mode, env, m).Dead?
    ensures DeadStep(Tick(mode, env, m).trace, m, Tick(mode, env, m).why)
  {
    hide Execute;
    hide LoadMem;
    HandlersDeath(m.board.uart, env.sched(m.clock), env.ascii);
    var r := HandlerRuns(m.board.uart, env.sched(m.clock), env.ascii);
    if r.Ok? {
      var b := m.board.(uart := r.value);
      LoadDeath(mode, b, m.cpu.pc, 4);
      var f := LoadMem(mode, b, m.cpu.pc, 4);
      if f.Ok? {
        ExecuteDeath(mode, env.batch, m.cpu, f.value.0, f.value.1);
        assert m.cpu.pc % 4 == 0 ==> Tick(mode, env, m).trace == m.trace + [Entry(m.cpu.pc, Some(f.value.1))];
      }
    }
  }

  function TraceOf(r: Result): seq<Entry> {
    match r
    case Live(m) => m.trace
    case Dead(trace, _) => trace
  }

  /** A run's trace, and the reason a failed pc assertion gives: every entry the run adds has its word,
      except possibly the newest one of a run whose process ended; and the pc assertion fails only
      directly after a jalr (or on the first instruction of a misaligned start). */
  ghost predicate RunTrace(m: MachineState, r: Result) {
    var s := TraceOf(r);
    && m.trace <= s
    && (r.Live? ==> Complete(s[|m.trace|..]))
    && (|s| > |m.trace| ==> Complete(s[|m.trace|..|s| - 1]) && s[|m.trace|].pc == m.cpu.pc)
    && (r.Dead? && r.why == PcAssert ==>
          && |s| > |m.trace| && s[|s| - 1].instr == None && s[|s| - 1].pc % 4 != 0
          && (|s| >= |m.trace| + 2 ==> s[|s| - 2].instr.Some? && Decode(s[|s| - 2].instr.value) == Jalr))
  }

  lemma {:induction false} LoopTrace(mode: Mode, env: Env, m: MachineState, n: nat)
    ensures RunTrace(m, Loop(mode, env, m, n))
    decreases n
  {
    hide Tick;
    hide RunTrace;
    hide StepFrame;
    hide DeadStep;
    if n == 0 {
      TraceStays(m, Loop(mode, env, m, n).m);
    } else {
      var t := Tick(mode, env, m);
      if t.Dead? {
        TickDeath(mode, env, m);
        TraceDies(m, t.trace, t.why);
      } else {
        var w := TickFrames(mode, env, m);
        TraceStep(m, t.m, w);
        if t.m.board.nemu == NemuRunning {
          LoopTrace(mode, env, t.m, n - 1);
          TraceTrans(m, t.m, w, Loop(mode, env, m, n));
        }
      }
    }
  }

  lemma TraceStays(m: MachineState, m': MachineState)
    requires m'.trace == m.trace
    ensures RunTrace(m, Live(m'))
  {
  }

  lemma TraceDies(m: MachineState, trace: seq<Entry>, why: Death)
    requires DeadStep(trace, m, why)
    ensures RunTrace(m, Dead(trace, why))
  {
    hide Decode;
  }

  lemma TraceStep(m: MachineState, m1: MachineState, w: u32)
    requires StepFrame(m, m1, w)
    ensures RunTrace(m, Live(m1)) && m1.trace == m.trace + [Entry(m.cpu.pc, Some(w))] && PcRule(m1.cpu, w)
  {
    hide PcRule;
    hide CpuFrame;
    hide BoardFrame;
  }

  lemma TraceTrans(m: MachineState, m1: MachineState, w: u32, r: Result)
    requires m1.trace == m.trace + [Entry(m.cpu.pc, Some(w))] && PcRule(m1.cpu, w)
    requires RunTrace(m1, r)
    ensures RunTrace(m, r)
  {
    hide Decode;
    var s, k := TraceOf(r), |m.trace|;
    assert s[k] == Entry(m.cpu.pc, Some(w));
    if r.Live? {
      assert s[k..] == [s[k]] + s[k + 1..];
    }
    if |s| > k + 1 {
      assert s[k..|s| - 1] == [s[k]] + s[k + 1..|s| - 1];
      if |s| == k + 2 {
        assert s[|s| - 2] == s[k] && s[|s| - 1].pc == m1.cpu.pc;
      }
    }
  }

  /** The run up to the jalr that misaligned the pc. */
  lemma {:induction false} LoopPcAssert(mode: Mode, env: Env, m: MachineState, n: nat, s: seq<Entry>) returns (k: nat, w: u32)
    requires m.cpu.pc % 4 == 0 && Loop(mode, env, m, n) == Dead(s, PcAssert)
    ensures k < n && Loop(mode, env, m, k).Live?
    ensures JalrMisaligned(Loop(mode, env, m, k).m, w)
    ensures s == Loop(mode, env, m, k).m.trace + [Entry(Loop(mode, env, m, k).m.cpu.pc, None)]
    decreases n
  {
    hide Tick;
    hide StepFrame;
    hide NextPc;
    hide Decode;
    var t := Tick(mode, env, m);
    if t.Dead? { TickDeath(mode, env, m); }
    w := TickFrames(mode, env, m);
    TraceStep(m, t.m, w);
    if t.m.cpu.pc % 4 == 0 {
      k, w := LoopPcAssert(mode, env, t.m, n - 1, s);
      k := k + 1;
    } else {
      k := 1;
      assert Loop(mode, env, m, 1) == Loop(mode, env, t.m, 0);
      MisalignedTick(mode, env, t.m);
    }
  }

  /** The newest instruction is the jalr w, and its source register, as read after rd was written, is
      not a multiple of four. */
  predicate JalrMisaligned(m: MachineState, w: u32) {
    && m.trace != [] && m.trace[|m.trace| - 1].instr == Some(w) && Decode(w) == Jalr
    && m.cpu.gpr[Rs1(w)] % 4 != 0 && m.cpu.pc == NextPc(m.cpu.gpr[Rs1(w)])
  }

  lemma MisalignedTick(mode: Mode, env: Env, m: MachineState)
    requires m.cpu.pc % 4 != 0
    ensures Tick(mode, env, m).Dead?
    ensures Tick(mode, env, m).why == PcAssert ==> Tick(mode, env, m).trace == m.trace + [Entry(m.cpu.pc, None)]
  {
    HandlersDeath(m.board.uart, env.sched(m.clock), env.ascii);
  }

  /** From an aligned start (such as CPU_INIT_PC), in every run the pc assertion can fail only directly
      after a jalr through a misaligned register: k steps lead to that jalr, and the next fails. */
  lemma PcAssertOnlyAfterJalr(mode: Mode, env: Env, m: MachineState, n: nat, s: seq<Entry>) returns (k: nat, w: u32)
    requires m.cpu.pc % 4 == 0 && CpuExec(mode, env, m, n) == Dead(s, PcAssert)
    ensures k < n && CpuExec(mode, env, m, k).Live?
    ensures JalrMisaligned(CpuExec(mode, env, m, k).m, w)
    ensures s == CpuExec(mode, env, m, k).m.trace + [Entry(CpuExec(mode, env, m, k).m.cpu.pc, None)]
  {
    hide Loop;
    hide JalrMisaligned;
    k, w := LoopPcAssert(mode, env, Start(m), n, s);
  }

  /** What any run adds to the history: entries that have their word, except possibly the newest one of a
      run whose process ended. */
  lemma RunTraces(mode: Mode, env: Env, m: MachineState, n: nat)
    ensures RunTrace(m, CpuExec(mode, env, m, n))
  {
    hide Loop;
    hide Decode;
    if m.board.nemu != NemuEnd { LoopTrace(mode, env, Start(m), n); }
  }

  /** The entry of a step has its word exactly when the pc is aligned and the fetch succeeds. */
  lemma EntryCompleteIff(mode: Mode, batch: bool, m: MachineState)
    ensures var s := TraceOf(Step(mode, batch, m));
            && |s| == |m.trace| + 1 && s[..|m.trace|] == m.trace && s[|m.trace|].pc == m.cpu.pc
            && (s[|m.trace|].instr.Some? <==> m.cpu.pc % 4 == 0 && LoadMem(mode, m.board, m.cpu.pc, 4).Ok?)
  {
    hide Execute;
    hide LoadMem;
  }

  /** An instruction without destination leaves the registers that Ends looks at. */
  lemma EndsStays(m: MachineState, m': MachineState, w: u32)
    requires StepFrame(m, m', w) && Ends(m.cpu, w)
    ensures Ends(m'.cpu, w)
  {
    hide BoardFrame;
    hide PcRule;
    hide AtGpio;
    hide StoreImm;
    hide Decode;
    assert Dest(w) == None;
    assert m'.cpu.gpr[Rs1(w)] == m.cpu.gpr[Rs1(w)];
  }

  lemma StepEnds(m: MachineState, m': MachineState, w: u32)
    requires StepFrame(m, m', w) && m.board.nemu == NemuRunning
    ensures m'.board.nemu == if Ends(m.cpu, w) then NemuEnd else NemuRunning
    ensures m'.trace == m.trace + [Entry(m.cpu.pc, Some(w))]
  {
    hide Ends;
    hide CpuFrame;
    hide PcRule;
  }

  lemma {:induction false} LoopEnds(mode: Mode, env: Env, m: MachineState, n: nat, m': MachineState)
    requires m.board.nemu == NemuRunning && Loop(mode, env, m, n) == Live(m') && m'.board.nemu == NemuEnd
    ensures |m'.trace| > |m.trace| && EndedBy(m')
    decreases n
  {
    hide Tick;
    hide Ends;
    hide StepFrame;
    var t := Tick(mode, env, m).m;
    var w := TickFrames(mode, env, m);
    StepEnds(m, t, w);
    if Ends(m.cpu, w) { EndsStays(m, t, w); } else { LoopEnds(mode, env, t, n - 1, m'); }
  }

  /** The newest instruction is the invalid one, or a store whose address is in the GPIO. */
  predicate EndedBy(m: MachineState) {
    && m.trace != [] && m.trace[|m.trace| - 1].instr.Some?
    && Ends(m.cpu, m.trace[|m.trace| - 1].instr.value)
  }

  /** NEMU_END is entered only by the invalid handler or a store to the GPIO, and cpu_exec then does
      nothing. */
  lemma EndIsAbsorbing(mode: Mode, env: Env, m: MachineState, n: nat, k: nat)
    ensures var r := CpuExec(mode, env, m, n);
            m.board.nemu != NemuEnd && r.Live? && r.m.board.nemu == NemuEnd ==>
              && CpuExec(mode, env, r.m, k) == r
              && |r.m.trace| > |m.trace| && EndedBy(r.m)
  {
    hide Loop;
    hide EndedBy;
    var r := CpuExec(mode, env, m, n);
    if m.board.nemu != NemuEnd && r.Live? && r.m.board.nemu == NemuEnd {
      LoopEnds(mode, env, Start(m), n, r.m);
    }
  }
}
