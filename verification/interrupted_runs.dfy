// Whole runs in which the timer handler also interrupts the instruction it belongs to: between the
// fetch and the handler of the instruction, and between the statements of serial_read
// (src/dev/serial.c:175-181), for fetches and for loads.

module InterruptedRuns {
  import opened Words
  import opened Outcomes
  import opened Formats
  import opened Decoder
  import opened AddressMap
  import opened Ram
  import opened Uart
  import opened Board
  import opened TraceRing
  import opened Machine
  import opened Boot
  import Runs
  import Sys = UartInterleaving
  import DeviceRuns

  /** Handler runs inside an Rx read: after line 177 has fetched the character, and after line 178 has
      found the ring non-empty. */
  datatype Mid = Mid(peeked: seq<Poll>, tested: seq<Poll>)

  /** Handler runs inside the t-th instruction slot, besides those that the schedule puts before it. */
  datatype Interrupts = Interrupts(fetch: nat -> Mid, decoded: nat -> seq<Poll>, data: nat -> Mid)

  /** What an observer of the serial line and of the guest's loads sees: the characters the ring accepted,
      and the values that loads of STAT and of Rx returned. */
  datatype Seen = Accepted(text: Text) | StatRead(v: u32) | RxRead(v: u32)

  /** The text a key event offers. */
  function Offered(u: UartState, ev: KeyEvent, ascii: int -> Text): Text {
    if InRange(ev.key) && (ev.kind == OtherType || (ev.kind == KeyDown && !u.keys[ev.key])) then ascii(ev.key) else []
  }

  function Handlers(u: UartState, polls: seq<Poll>, ascii: int -> Text): Outcome<(UartState, seq<Seen>)>
    decreases |polls|
  {
    if polls == [] then Ok((u, []))
    else
      match polls[0]
      case NoEvent => Handlers(u, polls[1..], ascii)
      case KeyPoll(ev) =>
        var r :- Handlers(SerialEnqueue(u, ev, ascii), polls[1..], ascii);
        Ok((r.0, [Accepted(Fits(u.ring, Offered(u, ev, ascii)))] + r.1))
      case QuitPoll => Dies(Exited)
  }

  predicate AtRx(addr: u32) { ProtAddr(addr) == SERIAL_ADDR + UARTLITE_RX }

  predicate AtStat(addr: u32) { ProtAddr(addr) == SERIAL_ADDR + UARTLITE_STAT }

  /** serial_read of Rx with handler runs between its statements. */
  function RxStatements(u: UartState, mid: Mid, ascii: int -> Text): Outcome<(UartState, u32, seq<Seen>)> {
    var d := u.ring.cells[u.ring.f];
    var r1 :- Handlers(u, mid.peeked, ascii);
    if r1.0.ring.f == r1.0.ring.r then Ok((r1.0, Wrap(d), r1.1 + [RxRead(Wrap(d))]))
    else
      var r2 :- Handlers(r1.0, mid.tested, ascii);
      Ok((r2.0.(ring := r2.0.ring.Advance()), Wrap(d), r1.1 + r2.1 + [RxRead(Wrap(d))]))
  }

  function LoadI(mode: Mode, b: BoardState, addr: u32, len: alen, mid: Mid, ascii: int -> Text): Outcome<(BoardState, u32, seq<Seen>)> {
    if AtRx(addr) then
      var r :- RxStatements(b.uart, mid, ascii);
      Ok((b.(uart := r.0), r.1, r.2))
    else
      var r :- LoadMem(mode, b, addr, len);
      Ok((r.0, r.1, if AtStat(addr) then [StatRead(r.1)] else []))
  }

  function ExecuteI(mode: Mode, batch: bool, ascii: int -> Text, c: CpuState, b: BoardState, w: u32, mid: Mid): Outcome<(CpuState, BoardState, seq<Seen>)> {
    var op := Decode(w);
    if w % 4 == 3 && KindOf(op) == LoadKind then
      var ea := LoadAddr(c, w);
      if ea % Width(op) != 0 then Dies(CpuAbort)
      else
        var r :- LoadI(mode, b, ea, Width(op), mid, ascii);
        Ok((c.(gpr := c.gpr[Rd(w) := Extend(op, r.1)]), r.0, r.2))
    else
      var r :- Execute(mode, batch, c, b, w);
      Ok((r.0, r.1, []))
  }

  datatype ResultI = LiveI(m: MachineState, seen: seq<Seen>) | DeadI(trace: seq<Entry>, why: Death)

  /** The part of an iteration after the fetch. */
  function AfterFetchI(mode: Mode, env: Env, ints: Interrupts, m: MachineState, b: BoardState, w: u32): ResultI {
    var trace := m.trace + [Entry(m.cpu.pc, Some(w))];
    match Handlers(b.uart, ints.decoded(m.clock), env.ascii)
    case Dies(why) => DeadI(trace, why)
    case Ok(h) =>
      match ExecuteI(mode, env.batch, env.ascii, m.cpu, b.(uart := h.0), w, ints.data(m.clock))
      case Dies(why) => DeadI(trace, why)
      case Ok(r) => LiveI(MachineState(r.0.(pc := Wrap(r.0.pc + 4)), r.1, trace, m.clock + 1), h.1 + r.2)
  }

  function Preceded(s: seq<Seen>, r: ResultI): ResultI {
    match r
    case DeadI(trace, why) => DeadI(trace, why)
    case LiveI(m, t) => LiveI(m, s + t)
  }

  function StepI(mode: Mode, env: Env, ints: Interrupts, m: MachineState): ResultI {
    if m.cpu.pc % 4 != 0 then DeadI(m.trace + [Entry(m.cpu.pc, None)], PcAssert)
    else
      match LoadI(mode, m.board, m.cpu.pc, 4, ints.fetch(m.clock), env.ascii)
      case Dies(why) => DeadI(m.trace + [Entry(m.cpu.pc, None)], why)
      case Ok(f) => Preceded(f.2, AfterFetchI(mode, env, ints, m, f.0, f.1))
  }

  function TickI(mode: Mode, env: Env, ints: Interrupts, m: MachineState): ResultI {
    match Handlers(m.board.uart, env.sched(m.clock), env.ascii)
    case Dies(why) => DeadI(m.trace, why)
    case Ok(h) => Preceded(h.1, StepI(mode, env, ints, m.(board := m.board.(uart := h.0))))
  }

  function LoopI(mode: Mode, env: Env, ints: Interrupts, m: MachineState, n: nat): ResultI
    decreases n
  {
    if n == 0 then
      LiveI(if m.board.nemu == NemuRunning then m.(board := m.board.(nemu := NemuStop)) else m, [])
    else
      match TickI(mode, env, ints, m)
      case DeadI(trace, why) => DeadI(trace, why)
      case LiveI(m', s) =>
        if m'.board.nemu != NemuRunning then LiveI(m', s) else Preceded(s, LoopI(mode, env, ints, m', n - 1))
  }

  /** cpu_exec with interrupts inside its instructions. */
  function CpuExecI(mode: Mode, env: Env, ints: Interrupts, m: MachineState, n: nat): ResultI {
    if m.board.nemu == NemuEnd then LiveI(m, []) else LoopI(mode, env, ints, Start(m), n)
  }

  // Without interrupts inside instructions these are the runs of cpu_exec.

  function Quiet(): Interrupts {
    Interrupts(_ => Mid([], []), _ => [], _ => Mid([], []))
  }

  function Forget(r: ResultI): Result {
    match r
    case LiveI(m, _) => Live(m)
    case DeadI(trace, why) => Dead(trace, why)
  }

  lemma {:induction false} HandlersForget(u: UartState, polls: seq<Poll>, ascii: int -> Text)
    ensures match Handlers(u, polls, ascii)
            case Ok(r) => HandlerRuns(u, polls, ascii) == Ok(r.0)
            case Dies(why) => HandlerRuns(u, polls, ascii) == Dies(why)
    decreases |polls|
  {
    hide SerialEnqueue;
    hide Fits;
    if polls != [] && !polls[0].QuitPoll? {
      HandlersForget(if polls[0].NoEvent? then u else SerialEnqueue(u, polls[0].ev, ascii), polls[1..], ascii);
    }
  }

  predicate SameLoad(r: Outcome<(BoardState, u32, seq<Seen>)>, s: Outcome<(BoardState, u32)>) {
    match r
    case Ok(v) => s == Ok((v.0, v.1))
    case Dies(why) => s == Dies(why)
  }

  lemma QuietLoad(mode: Mode, b: BoardState, addr: u32, len: alen, ascii: int -> Text)
    ensures SameLoad(LoadI(mode, b, addr, len, Mid([], []), ascii), LoadMem(mode, b, addr, len))
  {
    hide LoadMem;
    if AtRx(addr) {
      DeviceRuns.SerialLoad(mode, b, addr, len);
    }
  }

  lemma QuietStep(mode: Mode, env: Env, m: MachineState)
    ensures Forget(StepI(mode, env, Quiet(), m)) == Step(mode, env.batch, m)
  {
    hide LoadMem;
    hide LoadI;
    hide Execute;
    hide ExecuteI;
    QuietLoad(mode, m.board, m.cpu.pc, 4, env.ascii);
    var f := LoadI(mode, m.board, m.cpu.pc, 4, Mid([], []), env.ascii);
    if f.Ok? {
      QuietExecute(mode, env.batch, env.ascii, m.cpu, f.value.0, f.value.1);
    }
  }

  lemma QuietExecute(mode: Mode, batch: bool, ascii: int -> Text, c: CpuState, b: BoardState, w: u32)
    ensures match ExecuteI(mode, batch, ascii, c, b, w, Mid([], []))
            case Ok(r) => Execute(mode, batch, c, b, w) == Ok((r.0, r.1))
            case Dies(why) => Execute(mode, batch, c, b, w) == Dies(why)
  {
    hide Decode;
    hide LoadMem;
    hide StoreMem;
    hide LoadI;
    hide LoadAddr;
    hide Extend;
    hide ExecAlu;
    hide ExecStore;
    hide ExecBranch;
    hide ExecUpper;
    hide ExecJalr;
    hide ExecCsr;
    QuietLoad(mode, b, LoadAddr(c, w), Width(Decode(w)), ascii);
  }

  lemma QuietTick(mode: Mode, env: Env, m: MachineState)
    ensures Forget(TickI(mode, env, Quiet(), m)) == Tick(mode, env, m)
  {
    hide StepI;
    hide Step;
    hide Handlers;
    hide HandlerRuns;
    HandlersForget(m.board.uart, env.sched(m.clock), env.ascii);
    var h := Handlers(m.board.uart, env.sched(m.clock), env.ascii);
    if h.Ok? {
      QuietStep(mode, env, m.(board := m.board.(uart := h.value.0)));
    }
  }

  lemma {:induction false} QuietLoop(mode: Mode, env: Env, m: MachineState, n: nat)
    ensures Forget(LoopI(mode, env, Quiet(), m, n)) == Loop(mode, env, m, n)
    decreases n
  {
    hide TickI;
    hide Tick;
    if n > 0 {
      QuietTick(mode, env, m);
      var t := TickI(mode, env, Quiet(), m);
      if t.LiveI? { QuietLoop(mode, env, t.m, n - 1); }
    }
  }

  /** Runs without interrupts inside instructions are the runs of cpu_exec. */
  lemma QuietRun(mode: Mode, env: Env, m: MachineState, n: nat)
    ensures Forget(CpuExecI(mode, env, Quiet(), m, n)) == CpuExec(mode, env, m, n)
  {
    hide LoopI;
    hide Loop;
    QuietLoop(mode, env, Start(m), n);
  }

  // What a guest that polls STAT before Rx receives.

  /** The character in the low byte of an Rx value. */
  function Char(v: u32): schar {
    SignedByte(v % 0x100)
  }

  /** credit: the last STAT load returned 1 and no Rx load has followed.  accepted, returned: all characters
      that the ring accepted, and that Rx loads returned. */
  datatype Guest = Guest(credit: bool, accepted: seq<schar>, returned: seq<schar>)

  function See(g: Guest, e: Seen): Guest {
    match e
    case Accepted(text) => g.(accepted := g.accepted + text)
    case StatRead(v) => g.(credit := v == 1)
    case RxRead(v) => g.(credit := false, returned := g.returned + [Char(v)])
  }

  function SeeAll(g: Guest, s: seq<Seen>): Guest
    decreases |s|
  {
    if s == [] then g else SeeAll(See(g, s[0]), s[1..])
  }

  /** Every Rx load follows a STAT load that returned 1, with no Rx load in between. */
  predicate Disciplined(g: Guest, s: seq<Seen>)
    decreases |s|
  {
    s == [] || ((s[0].RxRead? ==> g.credit) && Disciplined(See(g, s[0]), s[1..]))
  }

  lemma {:induction false} SeeConcat(g: Guest, s: seq<Seen>, t: seq<Seen>)
    ensures SeeAll(g, s + t) == SeeAll(SeeAll(g, s), t)
    ensures Disciplined(g, s + t) <==> Disciplined(g, s) && Disciplined(SeeAll(g, s), t)
    decreases |s|
  {
    hide See;
    if s == [] {
      assert s + t == t;
    } else {
      assert (s + t)[0] == s[0] && (s + t)[1..] == s[1..] + t;
      SeeConcat(See(g, s[0]), s[1..], t);
    }
  }

  /** The invariant of the interleaved model, between two accesses of the machine. */
  ghost predicate Kept(u: UartState, g: Guest) {
    Sys.Inv(Sys.Sys(u.ring, Sys.Idle, g.credit, g.accepted, g.returned))
  }

  lemma OneSeen(g: Guest, e: Seen)
    ensures SeeAll(g, [e]) == See(g, e) && (Disciplined(g, [e]) <==> (e.RxRead? ==> g.credit))
  {
    assert SeeAll(See(g, e), []) == See(g, e);
    assert Disciplined(See(g, e), []);
  }

  lemma EnqueueOffers(u: UartState, ev: KeyEvent, ascii: int -> Text)
    ensures SerialEnqueue(u, ev, ascii).ring == u.ring.Offer(Offered(u, ev, ascii))
  {
  }

  /** The guest sees nothing of a handler run, and the ring accepts text only. */
  lemma {:induction false} HandlersSeen(u: UartState, polls: seq<Poll>, ascii: int -> Text, g: Guest)
    requires Handlers(u, polls, ascii).Ok?
    ensures var seen := Handlers(u, polls, ascii).value.1;
            Disciplined(g, seen) && SeeAll(g, seen) == g.(accepted := SeeAll(g, seen).accepted)
    decreases |polls|
  {
    hide SerialEnqueue;
    hide Offered;
    hide Fits;
    if polls != [] {
      if polls[0].KeyPoll? {
        var ev := polls[0].ev;
        var u1, e := SerialEnqueue(u, ev, ascii), Accepted(Fits(u.ring, Offered(u, ev, ascii)));
        HandlersSeen(u1, polls[1..], ascii, See(g, e));
        var rest := Handlers(u1, polls[1..], ascii).value.1;
        assert ([e] + rest)[1..] == rest;
      } else {
        HandlersSeen(u, polls[1..], ascii, g);
      }
    }
  }

  /** Handler runs keep the invariant wherever serial_read stands. */
  lemma {:induction false} HandlersKeep(s: Sys.Sys, u: UartState, polls: seq<Poll>, ascii: int -> Text, g: Guest)
    requires Sys.Inv(s) && s.ring == u.ring && s.accepted == g.accepted && Handlers(u, polls, ascii).Ok?
    ensures var r := Handlers(u, polls, ascii).value;
            Sys.Inv(s.(ring := r.0.ring, accepted := SeeAll(g, r.1).accepted))
    decreases |polls|
  {
    hide Sys.Inv;
    hide SerialEnqueue;
    hide Offered;
    hide Fits;
    if polls == [] {
      assert s.(ring := u.ring, accepted := g.accepted) == s;
    } else if polls[0].KeyPoll? {
      var ev := polls[0].ev;
      var text := Offered(u, ev, ascii);
      var u1, e := SerialEnqueue(u, ev, ascii), Accepted(Fits(u.ring, text));
      EnqueueOffers(u, ev, ascii);
      Sys.SignalKeeps(s, text);
      var s1 := Sys.Next(s, Sys.Signal(text));
      HandlersKeep(s1, u1, polls[1..], ascii, See(g, e));
      var rest := Handlers(u1, polls[1..], ascii).value.1;
      assert ([e] + rest)[1..] == rest;
    } else {
      HandlersKeep(s, u, polls[1..], ascii, g);
    }
  }

  /** An Rx read of a disciplined guest: however the handler interleaves, it returns the oldest character. */
  lemma RxKeeps(u: UartState, mid: Mid, ascii: int -> Text, g: Guest)
    requires Kept(u, g) && RxStatements(u, mid, ascii).Ok?
    requires Disciplined(g, RxStatements(u, mid, ascii).value.2)
    ensures var r := RxStatements(u, mid, ascii).value;
            Kept(r.0, SeeAll(g, r.2))
  {
    hide Handlers;
    hide Disciplined;
    hide SeeAll;
    hide Sys.Inv;
    var s0 := Sys.Sys(u.ring, Sys.Idle, g.credit, g.accepted, g.returned);
    var d := u.ring.cells[u.ring.f];
    var e := RxRead(Wrap(d));
    var r1 := Handlers(u, mid.peeked, ascii).value;
    HandlersSeen(u, mid.peeked, ascii, g);
    var g1 := SeeAll(g, r1.1);
    RxCredit(u, mid, ascii, g);
    Sys.StepKeeps(s0, Sys.BeginRx);
    var s1 := Sys.Next(s0, Sys.BeginRx);
    Sys.StepKeeps(s1, Sys.Micro);
    var s2 := Sys.Next(s1, Sys.Micro);
    assert s2.phase == Sys.AtTest(d);
    HandlersKeep(s2, u, mid.peeked, ascii, g);
    var s3 := s2.(ring := r1.0.ring, accepted := g1.accepted);
    NonEmptyInside(s3);
    Sys.StepKeeps(s3, Sys.Micro);
    var s4 := Sys.Next(s3, Sys.Micro);
    var r2 := Handlers(r1.0, mid.tested, ascii).value;
    HandlersKeep(s4, r1.0, mid.tested, ascii, g1);
    HandlersSeen(r1.0, mid.tested, ascii, g1);
    var g2 := SeeAll(g1, r2.1);
    var s5 := s4.(ring := r2.0.ring, accepted := g2.accepted);
    Sys.StepKeeps(s5, Sys.Micro);
    SeeConcat(g, r1.1 + r2.1, [e]);
    SeeConcat(g, r1.1, r2.1);
    OneSeen(g2, e);
    CharOf(d);
    assert Sys.Next(s5, Sys.Micro) == Sys.Sys(r2.0.ring.Advance(), Sys.Idle, false, g2.accepted, g.returned + [d]);
  }

  lemma CharOf(d: schar)
    ensures Char(Wrap(d)) == d
  {
    ModOfMod(d, 0x100, 0x100_0000);
  }

  lemma NonEmptyInside(s: Sys.Sys)
    requires Sys.Inv(s) && !s.phase.Idle?
    ensures s.ring.f != s.ring.r
  {
    Sys.EmptyIff(s.ring);
  }

  /** The discipline of a read with handler runs inside it is the credit before it. */
  lemma RxCredit(u: UartState, mid: Mid, ascii: int -> Text, g: Guest)
    requires RxStatements(u, mid, ascii).Ok? && Disciplined(g, RxStatements(u, mid, ascii).value.2)
    ensures g.credit
  {
    hide Handlers;
    hide Disciplined;
    hide SeeAll;
    var e := RxRead(Wrap(u.ring.cells[u.ring.f]));
    var r1 := Handlers(u, mid.peeked, ascii).value;
    HandlersSeen(u, mid.peeked, ascii, g);
    var g1 := SeeAll(g, r1.1);
    SeeConcat(g, r1.1, [e]);
    OneSeen(g1, e);
    if r1.0.ring.f != r1.0.ring.r {
      var r2 := Handlers(r1.0, mid.tested, ascii).value;
      HandlersSeen(r1.0, mid.tested, ascii, g1);
      SeeConcat(g, r1.1 + r2.1, [e]);
      SeeConcat(g, r1.1, r2.1);
      OneSeen(SeeAll(g1, r2.1), e);
    }
  }

  /** A load of STAT reports whether characters wait, and no load but one of Rx touches the ring. */
  lemma OtherLoad(mode: Mode, b: BoardState, addr: u32, len: alen)
    requires LoadMem(mode, b, addr, len).Ok? && !AtRx(addr)
    ensures var r := LoadMem(mode, b, addr, len).value;
            r.0.uart.ring == b.uart.ring && (AtStat(addr) ==> r.1 == if b.uart.ring.f == b.uart.ring.r then 0 else 1)
  {
    if DeviceRuns.AtSerial(addr) {
      DeviceRuns.SerialLoad(mode, b, addr, len);
    } else {
      DeviceRuns.LoadDevices(mode, b, addr, len);
    }
    hide LoadMem;
    hide ProtAddr;
  }

  lemma LoadKeeps(mode: Mode, b: BoardState, addr: u32, len: alen, mid: Mid, ascii: int -> Text, g: Guest)
    requires Kept(b.uart, g) && LoadI(mode, b, addr, len, mid, ascii).Ok?
    requires Disciplined(g, LoadI(mode, b, addr, len, mid, ascii).value.2)
    ensures var r := LoadI(mode, b, addr, len, mid, ascii).value;
            Kept(r.0.uart, SeeAll(g, r.2))
  {
    hide LoadMem;
    hide RxStatements;
    hide Disciplined;
    hide SeeAll;
    hide AtRx;
    hide AtStat;
    hide Sys.Inv;
    if AtRx(addr) {
      RxKeeps(b.uart, mid, ascii, g);
    } else {
      OtherLoad(mode, b, addr, len);
      var r := LoadMem(mode, b, addr, len).value;
      if AtStat(addr) {
        Sys.StepKeeps(Sys.Sys(b.uart.ring, Sys.Idle, g.credit, g.accepted, g.returned), Sys.Stat);
        OneSeen(g, StatRead(r.1));
      } else {
        assert SeeAll(g, []) == g by { SeeNothing(g); }
      }
    }
  }

  lemma SeeNothing(g: Guest)
    ensures SeeAll(g, []) == g
  {
  }

  /** No instruction but a load touches the ring. */
  lemma ExecuteRing(mode: Mode, batch: bool, c: CpuState, b: BoardState, w: u32)
    requires Execute(mode, batch, c, b, w).Ok? && KindOf(Decode(w)) != LoadKind
    ensures Execute(mode, batch, c, b, w).value.1.uart.ring == b.uart.ring
  {
    hide Decode;
    hide LoadMem;
    hide StoreMem;
    hide ExecAlu;
    hide ExecBranch;
    hide ExecUpper;
    hide ExecJalr;
    hide ExecCsr;
    hide ProtAddr;
    if KindOf(Decode(w)) == StoreKind {
      DeviceRuns.StoreDevices(mode, b, StoreAddr(c, w), Width(Decode(w)), c.gpr[Rs2(w)], batch);
    }
  }

  lemma ExecuteKeeps(mode: Mode, batch: bool, ascii: int -> Text, c: CpuState, b: BoardState, w: u32, mid: Mid, g: Guest)
    requires Kept(b.uart, g) && ExecuteI(mode, batch, ascii, c, b, w, mid).Ok?
    requires Disciplined(g, ExecuteI(mode, batch, ascii, c, b, w, mid).value.2)
    ensures var r := ExecuteI(mode, batch, ascii, c, b, w, mid).value;
            Kept(r.1.uart, SeeAll(g, r.2))
  {
    hide LoadI;
    hide Execute;
    hide Decode;
    hide LoadAddr;
    hide Extend;
    hide Disciplined;
    hide SeeAll;
    hide Sys.Inv;
    if w % 4 == 3 && KindOf(Decode(w)) == LoadKind {
      LoadKeeps(mode, b, LoadAddr(c, w), Width(Decode(w)), mid, ascii, g);
    } else {
      if w % 4 == 3 { ExecuteRing(mode, batch, c, b, w); } else { ExecuteOpcode(mode, batch, c, b, w); }
      SeeNothing(g);
    }
  }

  lemma ExecuteOpcode(mode: Mode, batch: bool, c: CpuState, b: BoardState, w: u32)
    requires w % 4 != 3
    ensures Execute(mode, batch, c, b, w) == Dies(OpcodeAssert)
  {
  }

  /** Handler runs between accesses. */
  lemma BetweenKeeps(u: UartState, polls: seq<Poll>, ascii: int -> Text, g: Guest)
    requires Kept(u, g) && Handlers(u, polls, ascii).Ok?
    ensures var r := Handlers(u, polls, ascii).value;
            Kept(r.0, SeeAll(g, r.1)) && Disciplined(g, r.1)
  {
    hide Handlers;
    hide SeeAll;
    hide Disciplined;
    hide Sys.Inv;
    HandlersSeen(u, polls, ascii, g);
    HandlersKeep(Sys.Sys(u.ring, Sys.Idle, g.credit, g.accepted, g.returned), u, polls, ascii, g);
  }

  lemma AfterFetchKeeps(mode: Mode, env: Env, ints: Interrupts, m: MachineState, b: BoardState, w: u32, g: Guest)
    requires Kept(b.uart, g) && AfterFetchI(mode, env, ints, m, b, w).LiveI?
    requires Disciplined(g, AfterFetchI(mode, env, ints, m, b, w).seen)
    ensures var r := AfterFetchI(mode, env, ints, m, b, w);
            Kept(r.m.board.uart, SeeAll(g, r.seen))
  {
    hide Handlers;
    hide ExecuteI;
    hide Disciplined;
    hide SeeAll;
    hide Kept;
    var h := Handlers(b.uart, ints.decoded(m.clock), env.ascii).value;
    BetweenKeeps(b.uart, ints.decoded(m.clock), env.ascii, g);
    var b1 := b.(uart := h.0);
    var r := ExecuteI(mode, env.batch, env.ascii, m.cpu, b1, w, ints.data(m.clock)).value;
    SeeConcat(g, h.1, r.2);
    ExecuteKeeps(mode, env.batch, env.ascii, m.cpu, b1, w, ints.data(m.clock), SeeAll(g, h.1));
  }

  lemma StepKeepsI(mode: Mode, env: Env, ints: Interrupts, m: MachineState, g: Guest)
    requires Kept(m.board.uart, g) && StepI(mode, env, ints, m).LiveI? && Disciplined(g, StepI(mode, env, ints, m).seen)
    ensures var r := StepI(mode, env, ints, m);
            Kept(r.m.board.uart, SeeAll(g, r.seen))
  {
    hide LoadI;
    hide AfterFetchI;
    hide Disciplined;
    hide SeeAll;
    hide Kept;
    var f := LoadI(mode, m.board, m.cpu.pc, 4, ints.fetch(m.clock), env.ascii).value;
    var r := AfterFetchI(mode, env, ints, m, f.0, f.1);
    SeeConcat(g, f.2, r.seen);
    LoadKeeps(mode, m.board, m.cpu.pc, 4, ints.fetch(m.clock), env.ascii, g);
    AfterFetchKeeps(mode, env, ints, m, f.0, f.1, SeeAll(g, f.2));
  }

  lemma TickKeeps(mode: Mode, env: Env, ints: Interrupts, m: MachineState, g: Guest)
    requires Kept(m.board.uart, g) && TickI(mode, env, ints, m).LiveI? && Disciplined(g, TickI(mode, env, ints, m).seen)
    ensures var r := TickI(mode, env, ints, m);
            Kept(r.m.board.uart, SeeAll(g, r.seen))
  {
    hide Handlers;
    hide StepI;
    hide Disciplined;
    hide SeeAll;
    hide Kept;
    var h := Handlers(m.board.uart, env.sched(m.clock), env.ascii).value;
    BetweenKeeps(m.board.uart, env.sched(m.clock), env.ascii, g);
    var m1 := m.(board := m.board.(uart := h.0));
    SeeConcat(g, h.1, StepI(mode, env, ints, m1).seen);
    StepKeepsI(mode, env, ints, m1, SeeAll(g, h.1));
  }

  lemma {:induction false} LoopKeeps(mode: Mode, env: Env, ints: Interrupts, m: MachineState, n: nat, g: Guest)
    requires Kept(m.board.uart, g) && LoopI(mode, env, ints, m, n).LiveI? && Disciplined(g, LoopI(mode, env, ints, m, n).seen)
    ensures var r := LoopI(mode, env, ints, m, n);
            Kept(r.m.board.uart, SeeAll(g, r.seen))
    decreases n
  {
    hide TickI;
    hide Disciplined;
    hide SeeAll;
    hide Kept;
    if n == 0 {
      SeeNothing(g);
    } else {
      var t := TickI(mode, env, ints, m);
      if t.m.board.nemu == NemuRunning {
        var r := LoopI(mode, env, ints, t.m, n - 1);
        SeeConcat(g, t.seen, r.seen);
        TickKeeps(mode, env, ints, m, g);
        LoopKeeps(mode, env, ints, t.m, n - 1, SeeAll(g, t.seen));
      } else {
        TickKeeps(mode, env, ints, m, g);
      }
    }
  }

  function Nothing(): Guest {
    Guest(false, [], [])
  }

  lemma BootKept(u: UartState)
    requires u == UartInit()
    ensures Kept(u, Nothing())
  {
  }

  /** In every live run of a booted machine, wherever the handler interrupts it: if the guest loads Rx only
      after STAT returned 1, then the characters that the ring accepted are, in order, those that the
      guest's Rx loads returned and those that still wait. */
  lemma LosslessRuns(mode: Mode, env: Env, ints: Interrupts, kernels: seq<seq<byte>>, prog: Program, n: nat)
    ensures var boot := InitMonitor(kernels, prog);
            boot.Ok? ==>
              var r := CpuExecI(mode, env, ints, boot.value, n);
              r.LiveI? && Disciplined(Nothing(), r.seen) ==>
                var g, q := SeeAll(Nothing(), r.seen), r.m.board.uart.ring;
                g.accepted == g.returned + q.Contents() && |q.Contents()| <= CAPACITY
  {
    hide InitMonitor;
    hide LoopI;
    hide Disciplined;
    hide SeeAll;
    hide UartInit;
    if InitMonitor(kernels, prog).Ok? {
      var m := InitMonitor(kernels, prog).value;
      DeviceRuns.BootDevices(kernels, prog);
      BootKept(m.board.uart);
      var r := CpuExecI(mode, env, ints, m, n);
      if r.LiveI? && Disciplined(Nothing(), r.seen) {
        LoopKeeps(mode, env, ints, Machine.Start(m), n, Nothing());
      }
    }
  }
}
