// The CPU in place: handlers that update the register file, and the run loop over the board.

module Emulator {
  import opened Words
  import opened Outcomes
  import opened Formats
  import opened Decoder
  import opened Alu
  import opened Uart
  import opened TraceRing
  import opened Platform
  import B = Board
  import Spec = Machine

  class Cpu {
    const gpr: array<u32>
    const csr: array<u32>
    var hi: u32
    var lo: u32
    var pc: u32
    ghost const Repr: set<object>

    ghost predicate Valid() {
      && Repr == {this, gpr, csr}
      && gpr.Length == 32 && csr.Length == 4096 && gpr != csr
    }

    ghost function View(): Spec.CpuState
      requires Valid()
      reads Repr
    {
      Spec.CpuState(gpr[..], csr[..], hi, lo, pc)
    }

    /** The zero-initialised CPU after init_cpu(entry). */
    constructor (entry: u32)
      ensures Valid() && fresh(Repr)
      ensures View() == Spec.CpuState(seq(32, _ => 0), seq(4096, _ => 0), 0, 0, entry)
    {
      var g := new u32[32](_ => 0);
      var c := new u32[4096](_ => 0);
      gpr, csr, hi, lo, pc := g, c, 0, 0, entry;
      Repr := {this, g, c};
      new;
      assert gpr[..] == seq(32, _ => 0);
      assert csr[..] == seq(4096, _ => 0);
    }

    /** A register, as the view shows it. */
    function Reg(r: reg): (v: u32)
      requires Valid()
      reads Repr
      ensures v == View().gpr[r]
    {
      gpr[r]
    }

    lemma PcInView()
      requires Valid()
      ensures View().pc == pc
    {
    }

    method AdvancePc()
      requires Valid()
      modifies this`pc
      ensures View() == old(View()).(pc := Wrap(old(View()).pc + 4))
    {
      pc := Wrap(pc + 4);
    }

    method ExecAlu(op: Op, w: u32) returns (ok: bool)
      requires Valid() && (KindOf(op) == AluKind || KindOf(op) == AluiKind)
      modifies gpr
      ensures ok ==> Spec.ExecAlu(old(View()), op, w) == Ok(View())
      ensures !ok ==> Spec.ExecAlu(old(View()), op, w) == Dies(Undefined)
    {
      hide Value;
      var a := gpr[Rs1(w)];
      var b := if KindOf(op) == AluKind then gpr[Rs2(w)]
               else if op.Slli? || op.Srli? || op.Srai? then Rs2(w)
               else if op.Sltiu? then Imm12(w)
               else Wrap(SImm12(w));
      if !DivisionDefined(op, a, b) {
        return false;
      }
      gpr[Rd(w)] := Value(op, a, b);
      return true;
    }

    method ExecBranch(op: Op, w: u32)
      requires Valid()
      modifies this`pc
      ensures View() == Spec.ExecBranch(old(View()), op, w)
    {
      if Spec.Taken(op, gpr[Rs1(w)], gpr[Rs2(w)]) {
        pc := Wrap(pc + 2 * BranchImm(w));
      }
    }

    method Lui(w: u32)
      requires Valid()
      modifies gpr
      ensures View() == Spec.ExecUpper(old(View()), Decoder.Lui, w)
    {
      gpr[Rd(w)] := Wrap(0x1000 * UImm20(w));
    }

    method Auipc(w: u32)
      requires Valid()
      modifies gpr
      ensures View() == Spec.ExecUpper(old(View()), Decoder.Auipc, w)
    {
      gpr[Rd(w)] := Wrap(pc + 0x1000 * UImm20(w));
    }

    method Jal(w: u32)
      requires Valid()
      modifies this`pc, gpr
      ensures View() == Spec.ExecUpper(old(View()), Decoder.Jal, w)
    {
      gpr[Rd(w)] := Wrap(pc + 4);
      pc := Wrap(pc + 0x1000 * SUImm20(w));
    }

    method ExecUpper(op: Op, w: u32)
      requires Valid() && KindOf(op) == UpperKind
      modifies this`pc, gpr
      ensures View() == Spec.ExecUpper(old(View()), op, w)
    {
      hide View;
      hide Spec.ExecUpper;
      match op {
        case Lui => Lui(w);
        case Auipc => Auipc(w);
        case Jal => Jal(w);
      }
    }

    method ExecJalr(w: u32)
      requires Valid()
      modifies this`pc, gpr
      ensures View() == Spec.ExecJalr(old(View()), w)
    {
      gpr[Rd(w)] := Wrap(pc + 4);
      pc := gpr[Rs1(w)];
    }

    method ExecCsr(op: Op, w: u32)
      requires Valid()
      modifies gpr, csr
      ensures View() == Spec.ExecCsr(old(View()), op, w)
    {
      hide Spec.CsrValue;
      var rd, rs1, n := Rd(w), Rs1(w), Imm12(w);
      if Spec.CsrWrites(op, gpr[rd], rs1) {
        gpr[rd] := csr[n];
        csr[n] := Spec.CsrValue(op, csr[n], if Spec.CsrImmediate(op) then rs1 else gpr[rs1]);
      }
    }

    method WriteReg(r: reg, v: u32)
      requires Valid()
      modifies gpr
      ensures View() == old(View()).(gpr := old(View()).gpr[r := v])
    {
      gpr[r] := v;
    }
  }

  class Nemu {
    const cpu: Cpu
    const board: Hardware
    const iq: InstrQueue
    // Position in the schedule of timer-handler runs.
    var clock: nat

    ghost predicate Valid()
      reads iq, iq.iq
    {
      && cpu.Valid() && board.Valid() && iq.Valid()
      && this !in cpu.Repr && this !in board.Repr && this !in iq.Repr
      && cpu.Repr !! board.Repr && cpu.Repr !! iq.Repr && board.Repr !! iq.Repr
    }

    ghost function View(): Spec.MachineState
      requires Valid()
      reads this, cpu.Repr, board.Repr, iq, iq.iq
    {
      Spec.MachineState(cpu.View(), board.View(), iq.history, clock)
    }

    constructor (board: Hardware)
      requires board.Valid()
      ensures Valid()
      ensures this.board == board && fresh(cpu.Repr) && fresh(iq.Repr)
      ensures View() == Spec.MachineState(
                Spec.CpuState(seq(32, _ => 0), seq(4096, _ => 0), 0, 0, Spec.CPU_INIT_PC), board.View(), [], 0)
    {
      var c := new Cpu(Spec.CPU_INIT_PC);
      var q := new InstrQueue();
      this.cpu, this.board, this.iq, this.clock := c, board, q, 0;
    }

    method ExecLoad(op: Op, w: u32) returns (res: Outcome<()>)
      requires Valid()
      modifies cpu.Repr, board.Repr
      ensures Valid()
      ensures res.Ok? ==> Spec.ExecLoad(B.Fast, old(cpu.View()), old(board.View()), op, w) == Ok((cpu.View(), board.View()))
      ensures res.Dies? ==> Spec.ExecLoad(B.Fast, old(cpu.View()), old(board.View()), op, w) == Dies(res.why)
    {
      hide Hardware.View;
      hide B.LoadMem;
      hide Wrap;
      hide SImm12;
      hide Rs1;
      hide Rd;
      hide Spec.Extend;
      hide Cpu.View;
      var ea := Wrap(cpu.Reg(Rs1(w)) + SImm12(w));
      if ea % Spec.Width(op) != 0 {
        return Dies(CpuAbort);
      }
      var data := board.LoadMem(ea, Spec.Width(op));
      if data.Dies? {
        return Dies(data.why);
      }
      cpu.WriteReg(Rd(w), Spec.Extend(op, data.value));
      return Ok(());
    }

    method ExecStore(op: Op, w: u32, batch: bool) returns (res: Outcome<()>)
      requires Valid()
      modifies board.Repr
      ensures Valid()
      ensures res.Ok? ==> Spec.ExecStore(B.Fast, batch, cpu.View(), old(board.View()), op, w) == Ok(board.View())
      ensures res.Dies? ==> Spec.ExecStore(B.Fast, batch, cpu.View(), old(board.View()), op, w) == Dies(res.why)
    {
      hide Hardware.View;
      hide B.StoreMem;
      hide Wrap;
      hide StoreImm;
      hide Cpu.View;
      var ea := Wrap(cpu.Reg(Rs1(w)) + StoreImm(w));
      if ea % Spec.Width(op) != 0 {
        return Dies(CpuAbort);
      }
      res := board.StoreMem(ea, Spec.Width(op), cpu.Reg(Rs2(w)), batch);
    }

    method Execute(w: u32, batch: bool) returns (res: Outcome<()>)
      requires Valid()
      modifies cpu.Repr, board.Repr
      ensures Valid()
      ensures res.Ok? ==> Spec.Execute(B.Fast, batch, old(cpu.View()), old(board.View()), w) == Ok((cpu.View(), board.View()))
      ensures res.Dies? ==> Spec.Execute(B.Fast, batch, old(cpu.View()), old(board.View()), w) == Dies(res.why)
    {
      hide Hardware.View;
      hide Cpu.View;
      hide Spec.ExecAlu;
      hide Spec.ExecLoad;
      hide Spec.ExecStore;
      hide Spec.ExecBranch;
      hide Spec.ExecCsr;
      hide Spec.ExecUpper;
      hide Spec.ExecJalr;
      if w % 4 != 3 {
        return Dies(OpcodeAssert);
      }
      var op := Decode(w);
      match KindOf(op) {
        case AluKind =>
          var ok := cpu.ExecAlu(op, w);
          if !ok { return Dies(Undefined); }
        case AluiKind =>
          var ok := cpu.ExecAlu(op, w);
          if !ok { return Dies(Undefined); }
        case LoadKind =>
          res := ExecLoad(op, w);
          return;
        case StoreKind =>
          res := ExecStore(op, w, batch);
          return;
        case BranchKind => cpu.ExecBranch(op, w);
        case CsrKind => cpu.ExecCsr(op, w);
        case UpperKind => cpu.ExecUpper(op, w);
        case JalrKind => cpu.ExecJalr(w);
        case NoneKind =>
          if op == EcallEbreak {
            return Dies(EcallAssert);
          } else if op == Inv {
            board.SetNemu(B.NemuEnd);
          }
      }
      return Ok(());
    }

    /** The timer handler's runs of one slot. */
    method RunHandlers(polls: seq<Spec.Poll>, ascii: int -> Text) returns (ok: bool)
      requires Valid()
      modifies board.uart.Repr
      ensures Valid()
      ensures var r := Spec.HandlerRuns(old(board.View()).uart, polls, ascii);
              if ok then r == Ok(board.View().uart) && board.View() == old(board.View()).(uart := board.View().uart)
              else r == Dies(Exited)
    {
      hide Hardware.View;
      var i := 0;
      while i < |polls|
        invariant 0 <= i <= |polls| && Valid()
        invariant board.View() == old(board.View()).(uart := board.View().uart)
        invariant Spec.HandlerRuns(old(board.View()).uart, polls, ascii) == Spec.HandlerRuns(board.View().uart, polls[i..], ascii)
        modifies board.uart.Repr
      {
        assert polls[i..][0] == polls[i] && polls[i..][1..] == polls[i + 1..];
        match polls[i] {
          case NoEvent =>
          case KeyPoll(ev) => board.KeyEventArrives(ev, ascii);
          case QuitPoll => return false;
        }
        i := i + 1;
      }
      return true;
    }

    /** The fetch, and the newest trace entry: complete exactly when the fetch succeeds. */
    method Fetch() returns (w: Outcome<u32>)
      requires Valid()
      modifies board.Repr, iq, iq.iq
      ensures Valid()
      ensures w.Ok? ==> B.LoadMem(B.Fast, old(board.View()), cpu.pc, 4) == Ok((board.View(), w.value))
                        && iq.history == old(iq.history) + [Entry(cpu.pc, Some(w.value))]
      ensures w.Dies? ==> iq.history == old(iq.history) + [Entry(cpu.pc, None)]
      ensures w.Dies? ==> (if cpu.pc % 4 != 0 then w.why == PcAssert
                           else B.LoadMem(B.Fast, old(board.View()), cpu.pc, 4) == Dies(w.why))
      ensures w.Ok? ==> cpu.pc % 4 == 0
    {
      hide Hardware.View;
      hide B.LoadMem;
      hide Shows;
      ghost var before := iq.history;
      iq.EnqueuePc(cpu.pc);
      if cpu.pc % 4 != 0 {
        return Dies(PcAssert);
      }
      w := board.LoadMem(cpu.pc, 4);
      if w.Ok? {
        iq.EnqueueInstr(w.value);
        RecordNewest(before, cpu.pc, w.value);
      }
    }

    /** The end of an iteration. */
    method Advance()
      requires Valid()
      modifies this`clock, cpu.Repr
      ensures Valid()
      ensures View() == old(View()).(cpu := old(cpu.View()).(pc := Wrap(old(cpu.View()).pc + 4)), clock := old(clock) + 1)
    {
      hide Hardware.View;
      hide Hardware.Valid;
      hide InstrQueue.Valid;
      hide Cpu.View;
      hide Wrap;
      cpu.AdvancePc();
      clock := clock + 1;
    }

    method Step(batch: bool) returns (res: Outcome<()>)
      requires Valid()
      modifies this, cpu.Repr, board.Repr, iq, iq.iq
      ensures Valid()
      ensures res.Ok? ==> Spec.Step(B.Fast, batch, old(View())) == Spec.Live(View())
      ensures res.Dies? ==> Spec.Step(B.Fast, batch, old(View())) == Spec.Dead(iq.history, res.why)
    {
      hide Hardware.View;
      hide Spec.Execute;
      hide B.LoadMem;
      hide Shows;
      hide Wrap;
      hide Cpu.View;
      hide Hardware.Valid;
      cpu.PcInView();
      var w := Fetch();
      if w.Dies? {
        return Dies(w.why);
      }
      res := Execute(w.value, batch);
      if res.Ok? {
        Advance();
      }
    }

    /** One iteration of the run loop. */
    method Tick(env: Spec.Env) returns (res: Outcome<()>)
      requires Valid()
      modifies this, cpu.Repr, board.Repr, iq, iq.iq
      ensures Valid()
      ensures res.Ok? ==> Spec.Tick(B.Fast, env, old(View())) == Spec.Live(View())
      ensures res.Dies? ==> Spec.Tick(B.Fast, env, old(View())) == Spec.Dead(iq.history, res.why)
    {
      hide Hardware.View;
      hide Cpu.View;
      hide Spec.Step;
      hide Spec.HandlerRuns;
      hide Shows;
      var ok := RunHandlers(env.sched(clock), env.ascii);
      if !ok {
        return Dies(Exited);
      }
      res := Step(env.batch);
    }

    /** cpu_exec */
    method CpuExec(count: nat, env: Spec.Env) returns (res: Outcome<()>)
      requires Valid() && count < 0x1_0000_0000_0000_0000
      modifies this, cpu.Repr, board.Repr, iq, iq.iq
      ensures Valid()
      ensures res.Ok? ==> Spec.CpuExec(B.Fast, env, old(View()), count) == Spec.Live(View())
      ensures res.Dies? ==> Spec.CpuExec(B.Fast, env, old(View()), count) == Spec.Dead(iq.history, res.why)
    {
      hide Hardware.View;
      hide Cpu.View;
      hide Spec.Tick;
      board.NemuInView();
      if board.nemu == B.NemuEnd {
        return Ok(());
      }
      board.SetNemu(B.NemuRunning);
      var n := count;
      ghost var start := View();
      board.NemuInView();
      while n > 0
        invariant 0 <= n <= count && Valid()
        invariant View().board.nemu == B.NemuRunning == board.nemu
        invariant Spec.Loop(B.Fast, env, View(), n) == Spec.Loop(B.Fast, env, start, count)
      {
        res := Tick(env);
        if res.Dies? {
          return;
        }
        board.NemuInView();
        if board.nemu != B.NemuRunning {
          return Ok(());
        }
        n := n - 1;
      }
      if board.nemu == B.NemuRunning {
        board.SetNemu(B.NemuStop);
      }
      return Ok(());
    }
  }
}
