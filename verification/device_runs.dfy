// The devices inside whole runs of cpu_exec, with timer-handler runs between instruction slots: the MAC and
// the UART of a running machine are exactly what the run's own accesses and key events make of them.
// Handler runs inside serial_read are the subject of InterruptedRuns.

module DeviceRuns {
  import opened Words
  import opened Outcomes
  import opened Formats
  import opened Decoder
  import opened AddressMap
  import opened Ram
  import opened Uart
  import opened Emaclite
  import opened Board
  import opened TraceRing
  import opened Machine
  import opened Runs
  import opened Loader
  import opened Boot
  import Mdio
  import Keys = UartKeys

  /** What can reach a device: a key event, and a load or a store of the CPU. */
  datatype Happening = Typed(ev: KeyEvent) | Load(addr: u32, len: alen) | Store(addr: u32, len: alen, data: u32)

  function Apply(mode: Mode, batch: bool, ascii: int -> Text, b: BoardState, e: Happening): Outcome<BoardState> {
    match e
    case Typed(ev) => Ok(b.(uart := SerialEnqueue(b.uart, ev, ascii)))
    case Load(addr, len) =>
      var r :- LoadMem(mode, b, addr, len);
      Ok(r.0)
    case Store(addr, len, data) => StoreMem(mode, b, addr, len, data, batch)
  }

  function ApplyAll(mode: Mode, batch: bool, ascii: int -> Text, b: BoardState, log: seq<Happening>): Outcome<BoardState>
    decreases |log|
  {
    if log == [] then Ok(b)
    else
      var b1 :- Apply(mode, batch, ascii, b, log[0]);
      ApplyAll(mode, batch, ascii, b1, log[1..])
  }

  // The MAC's and the UART's part of a log.

  predicate AtMac(addr: u32) {
    MAC_ADDR <= ProtAddr(addr) < MAC_ADDR + MAC_SIZE
  }

  predicate AtSerial(addr: u32) {
    SERIAL_ADDR <= ProtAddr(addr) < SERIAL_ADDR + SERIAL_SIZE
  }

  function MacAccess(e: Happening): seq<Mdio.Access> {
    match e
    case Typed(_) => []
    case Load(addr, len) => if AtMac(addr) then [Mdio.R(ProtAddr(addr) - MAC_ADDR, len)] else []
    case Store(addr, len, data) => if AtMac(addr) then [Mdio.W(ProtAddr(addr) - MAC_ADDR, len, data)] else []
  }

  function MacLog(log: seq<Happening>): seq<Mdio.Access>
    decreases |log|
  {
    if log == [] then [] else MacAccess(log[0]) + MacLog(log[1..])
  }

  function UartAccess(e: Happening): seq<Keys.Event> {
    match e
    case Typed(ev) => [Keys.Key(ev)]
    case Load(addr, _) => if AtSerial(addr) && ProtAddr(addr) == SERIAL_ADDR + UARTLITE_RX then [Keys.GuestRead] else []
    case Store(addr, _, data) => if AtSerial(addr) then [Keys.GuestWrite(ProtAddr(addr) - SERIAL_ADDR, data)] else []
  }

  function UartLog(log: seq<Happening>): seq<Keys.Event>
    decreases |log|
  {
    if log == [] then [] else UartAccess(log[0]) + UartLog(log[1..])
  }

  /** Which accesses the table routes to the MAC and to the UART. */
  lemma DeviceRegion(pa: u32)
    ensures Lookup(MMAP, pa).Some? ==>
              var r := Lookup(MMAP, pa).value;
              && (r.dev == Mac <==> MAC_ADDR <= pa < MAC_ADDR + MAC_SIZE)
              && (r.dev == Serial <==> SERIAL_ADDR <= pa < SERIAL_ADDR + SERIAL_SIZE)
              && (r.dev == Mac ==> r.start == MAC_ADDR) && (r.dev == Serial ==> r.start == SERIAL_ADDR)
  {
    hide LookupFrom;
    MmapCases(pa);
    assert forall r: Region | r in MMAP ::
        r == MMAP[0] || r == MMAP[1] || r == MMAP[2] || r == MMAP[3] || r == MMAP[4] || r == MMAP[5] || r == MMAP[6];
  }

  /** A load that the table routes to the UART. */
  lemma SerialLoad(mode: Mode, b: BoardState, addr: u32, len: alen)
    requires AtSerial(addr)
    ensures LoadMem(mode, b, addr, len) == FromUart(b, SerialRead(b.uart, ProtAddr(addr) - SERIAL_ADDR))
  {
    hide SerialRead;
    hide ReadHandler;
    hide ReadMaskedWord;
    hide ProtAddr;
    SerialRow(ProtAddr(addr));
    hide LookupFrom;
    LowAddress(addr);
  }

  lemma LowAddress(addr: u32)
    ensures addr < 0x1000 ==> ProtAddr(addr) == addr
  {
  }

  lemma SerialRow(pa: u32)
    requires SERIAL_ADDR <= pa < SERIAL_ADDR + SERIAL_SIZE
    ensures Lookup(MMAP, pa) == Some(MMAP[4])
  {
    assert MMAP[4].Contains(pa) && MMAP[4] in MMAP;
  }

  /** What a successful load does to the devices. */
  lemma LoadDevices(mode: Mode, b: BoardState, addr: u32, len: alen)
    requires LoadMem(mode, b, addr, len).Ok?
    ensures var b', pa := LoadMem(mode, b, addr, len).value.0, ProtAddr(addr);
            && b'.mac == b.mac
            && (AtMac(addr) ==> MacRead(b.mac, pa - MAC_ADDR, len).Ok?)
            && (if AtSerial(addr) then
                  SerialRead(b.uart, pa - SERIAL_ADDR).Some? && SerialRead(b.uart, pa - SERIAL_ADDR).value.0 == b'.uart
                else b'.uart == b.uart)
  {
    hide LookupFrom;
    hide ReadHandler;
    hide ReadMaskedWord;
    hide MacRead;
    hide SerialRead;
    hide ProtAddr;
    DeviceRegion(ProtAddr(addr));
  }

  /** What a successful store does to the devices. */
  lemma StoreDevices(mode: Mode, b: BoardState, addr: u32, len: alen, data: u32, batch: bool)
    requires StoreMem(mode, b, addr, len, data, batch).Ok?
    ensures var b', pa := StoreMem(mode, b, addr, len, data, batch).value, ProtAddr(addr);
            && (if AtMac(addr) then MacWrite(b.mac, pa - MAC_ADDR, len, data) == Ok(b'.mac) else b'.mac == b.mac)
            && (if AtSerial(addr) then SerialWrite(b.uart, pa - SERIAL_ADDR, data) == Some(b'.uart)
                else b'.uart == b.uart)
  {
    hide LookupFrom;
    hide WriteHandlerBytes;
    hide Splice;
    hide MacWrite;
    hide SerialWrite;
    hide ProtAddr;
    DeviceRegion(ProtAddr(addr));
  }

  /** One happening, as the MAC sees it. */
  lemma MacFollows(mode: Mode, batch: bool, ascii: int -> Text, b: BoardState, e: Happening, h: seq<Mdio.Access>)
    requires Apply(mode, batch, ascii, b, e).Ok? && Mdio.RunMac(h) == Ok(b.mac)
    ensures Mdio.RunMac(h + MacAccess(e)) == Ok(Apply(mode, batch, ascii, b, e).value.mac)
  {
    hide Mdio.RunMac;
    MacAfter(mode, batch, ascii, b, e);
    if MacAccess(e) == [] {
      assert h + MacAccess(e) == h;
    } else {
      assert MacAccess(e) == [MacAccess(e)[0]];
      Mdio.RunSnoc(h, MacAccess(e)[0]);
    }
  }

  lemma MacAfter(mode: Mode, batch: bool, ascii: int -> Text, b: BoardState, e: Happening)
    requires Apply(mode, batch, ascii, b, e).Ok?
    ensures var mac := Apply(mode, batch, ascii, b, e).value.mac;
            && |MacAccess(e)| <= 1
            && (if MacAccess(e) == [] then mac == b.mac else Mdio.Apply(b.mac, MacAccess(e)[0]) == Ok(mac))
  {
    hide LoadMem;
    hide StoreMem;
    hide MacRead;
    hide MacWrite;
    hide SerialEnqueue;
    hide ProtAddr;
    match e {
      case Typed(_) =>
      case Load(addr, len) => LoadDevices(mode, b, addr, len);
      case Store(addr, len, data) => StoreDevices(mode, b, addr, len, data, batch);
    }
  }

  /** One happening, as the UART sees it; an Rx load gets the character that the run's record says. */
  lemma UartFollows(mode: Mode, batch: bool, ascii: int -> Text, b: BoardState, e: Happening, k: Keys.KeyRun)
    requires Apply(mode, batch, ascii, b, e).Ok? && k.u == b.uart
    ensures Keys.RunKeys(k, UartAccess(e), ascii).u == Apply(mode, batch, ascii, b, e).value.uart
    ensures e.Load? && UartAccess(e) != [] ==>
              var ch := b.uart.ring.cells[b.uart.ring.f];
              && LoadMem(mode, b, e.addr, e.len).value.1 == Wrap(ch)
              && Keys.RunKeys(k, UartAccess(e), ascii).returned == k.returned + [ch]
  {
    hide LoadMem;
    hide StoreMem;
    hide SerialEnqueue;
    hide SerialWrite;
    hide Keys.Fires;
    if UartAccess(e) != [] {
      OneEvent(k, UartAccess(e)[0], ascii);
      assert UartAccess(e) == [UartAccess(e)[0]];
    }
    match e {
      case Typed(_) =>
      case Load(addr, len) =>
        LoadDevices(mode, b, addr, len);
        if AtSerial(addr) { SerialLoad(mode, b, addr, len); }
      case Store(addr, len, data) => StoreDevices(mode, b, addr, len, data, batch);
    }
  }

  lemma OneEvent(k: Keys.KeyRun, e: Keys.Event, ascii: int -> Text)
    ensures Keys.RunKeys(k, [e], ascii) == Keys.NextKey(k, e, ascii)
  {
    assert Keys.RunKeys(Keys.NextKey(k, e, ascii), [], ascii) == Keys.NextKey(k, e, ascii);
  }

  lemma {:induction false} RunKeysConcat(k: Keys.KeyRun, s: seq<Keys.Event>, t: seq<Keys.Event>, ascii: int -> Text)
    ensures Keys.RunKeys(k, s + t, ascii) == Keys.RunKeys(Keys.RunKeys(k, s, ascii), t, ascii)
    decreases |s|
  {
    hide Keys.NextKey;
    if s == [] {
      assert s + t == t;
    } else {
      assert (s + t)[0] == s[0] && (s + t)[1..] == s[1..] + t;
      RunKeysConcat(Keys.NextKey(k, s[0], ascii), s[1..], t, ascii);
    }
  }

  /** The devices after a log. */
  ghost predicate Follows(b: BoardState, log: seq<Happening>, ascii: int -> Text, h: seq<Mdio.Access>, k: Keys.KeyRun) {
    Mdio.RunMac(h + MacLog(log)) == Ok(b.mac) && Keys.RunKeys(k, UartLog(log), ascii).u == b.uart
  }

  lemma {:induction false} LogFollows(mode: Mode, batch: bool, ascii: int -> Text, b: BoardState, log: seq<Happening>, h: seq<Mdio.Access>, k: Keys.KeyRun)
    requires ApplyAll(mode, batch, ascii, b, log).Ok? && Mdio.RunMac(h) == Ok(b.mac) && k.u == b.uart
    ensures Follows(ApplyAll(mode, batch, ascii, b, log).value, log, ascii, h, k)
    decreases |log|
  {
    hide Apply;
    hide MacAccess;
    hide UartAccess;
    hide Mdio.RunMac;
    if log == [] {
      assert h + MacLog(log) == h;
    } else {
      var e := log[0];
      var b1 := Apply(mode, batch, ascii, b, e).value;
      MacFollows(mode, batch, ascii, b, e, h);
      UartFollows(mode, batch, ascii, b, e, k);
      LogFollows(mode, batch, ascii, b1, log[1..], h + MacAccess(e), Keys.RunKeys(k, UartAccess(e), ascii));
      assert h + MacLog(log) == h + MacAccess(e) + MacLog(log[1..]);
      RunKeysConcat(k, UartAccess(e), UartLog(log[1..]), ascii);
    }
  }

  lemma {:induction false} MacLogConcat(s: seq<Happening>, t: seq<Happening>)
    ensures MacLog(s + t) == MacLog(s) + MacLog(t)
    decreases |s|
  {
    hide MacAccess;
    if s == [] {
      assert s + t == t;
      assert MacLog(s) + MacLog(t) == MacLog(t);
    } else {
      assert (s + t)[0] == s[0] && (s + t)[1..] == s[1..] + t;
      MacLogConcat(s[1..], t);
      assert MacAccess(s[0]) + (MacLog(s[1..]) + MacLog(t)) == (MacAccess(s[0]) + MacLog(s[1..])) + MacLog(t);
    }
  }

  lemma {:induction false} UartLogConcat(s: seq<Happening>, t: seq<Happening>)
    ensures UartLog(s + t) == UartLog(s) + UartLog(t)
    decreases |s|
  {
    hide UartAccess;
    if s == [] {
      assert s + t == t;
      assert UartLog(s) + UartLog(t) == UartLog(t);
    } else {
      assert (s + t)[0] == s[0] && (s + t)[1..] == s[1..] + t;
      UartLogConcat(s[1..], t);
      assert UartAccess(s[0]) + (UartLog(s[1..]) + UartLog(t)) == (UartAccess(s[0]) + UartLog(s[1..])) + UartLog(t);
    }
  }

  lemma {:induction false} ApplyConcat(mode: Mode, batch: bool, ascii: int -> Text, b: BoardState, s: seq<Happening>, t: seq<Happening>)
    requires ApplyAll(mode, batch, ascii, b, s).Ok?
    ensures ApplyAll(mode, batch, ascii, b, s + t) == ApplyAll(mode, batch, ascii, ApplyAll(mode, batch, ascii, b, s).value, t)
    decreases |s|
  {
    hide Apply;
    if s == [] {
      assert s + t == t;
    } else {
      assert (s + t)[0] == s[0] && (s + t)[1..] == s[1..] + t;
      ApplyConcat(mode, batch, ascii, Apply(mode, batch, ascii, b, s[0]).value, s[1..], t);
    }
  }

  // What a run does to the devices.

  function Typing(polls: seq<Poll>): seq<Happening>
    decreases |polls|
  {
    if polls == [] then []
    else (if polls[0].KeyPoll? then [Typed(polls[0].ev)] else []) + Typing(polls[1..])
  }

  /** The data access of an instruction. */
  function DataAccess(c: CpuState, w: u32): seq<Happening> {
    var op := Decode(w);
    if w % 4 != 3 then []
    else if KindOf(op) == LoadKind then [Load(LoadAddr(c, w), Width(op))]
    else if KindOf(op) == StoreKind then [Store(StoreAddr(c, w), Width(op), c.gpr[Rs2(w)])]
    else []
  }

  /** One iteration: the key events of its slot, the fetch, the data access. */
  function TickLog(env: Env, m: MachineState, w: u32): seq<Happening> {
    Typing(env.sched(m.clock)) + ([Load(m.cpu.pc, 4)] + DataAccess(m.cpu, w))
  }

  /** The device accesses and key events of a live run, in order. */
  function RunLog(mode: Mode, env: Env, m: MachineState, n: nat): seq<Happening>
    decreases n
  {
    if n == 0 then []
    else
      match Tick(mode, env, m)
      case Dead(_, _) => []
      case Live(m') =>
        var e := m'.trace[|m'.trace| - 1];
        (if e.instr.Some? then TickLog(env, m, e.instr.value) else []) +
        (if m'.board.nemu != NemuRunning then [] else RunLog(mode, env, m', n - 1))
  }

  lemma {:induction false} TypingApplies(mode: Mode, batch: bool, ascii: int -> Text, b: BoardState, polls: seq<Poll>)
    requires HandlerRuns(b.uart, polls, ascii).Ok?
    ensures ApplyAll(mode, batch, ascii, b, Typing(polls)) == Ok(b.(uart := HandlerRuns(b.uart, polls, ascii).value))
    decreases |polls|
  {
    hide SerialEnqueue;
    if polls != [] {
      if polls[0].KeyPoll? {
        var b1 := b.(uart := SerialEnqueue(b.uart, polls[0].ev, ascii));
        TypingApplies(mode, batch, ascii, b1, polls[1..]);
        assert Typing(polls)[1..] == Typing(polls[1..]);
      } else {
        TypingApplies(mode, batch, ascii, b, polls[1..]);
        assert Typing(polls) == Typing(polls[1..]);
      }
    }
  }

  /** The data access is all that an instruction does to the devices. */
  lemma DataApplies(mode: Mode, batch: bool, ascii: int -> Text, c: CpuState, b: BoardState, w: u32)
    requires Execute(mode, batch, c, b, w).Ok?
    ensures var r, b' := ApplyAll(mode, batch, ascii, b, DataAccess(c, w)), Execute(mode, batch, c, b, w).value.1;
            r.Ok? && r.value.mac == b'.mac && r.value.uart == b'.uart
  {
    hide Decode;
    hide LoadMem;
    hide StoreMem;
    hide ExecAlu;
    hide ExecBranch;
    hide ExecUpper;
    hide ExecJalr;
    hide ExecCsr;
    hide LoadAddr;
    hide StoreAddr;
    var log := DataAccess(c, w);
    if log != [] {
      OneHappening(mode, batch, ascii, b, log[0]);
      assert log == [log[0]];
    }
  }

  lemma OneHappening(mode: Mode, batch: bool, ascii: int -> Text, b: BoardState, e: Happening)
    ensures ApplyAll(mode, batch, ascii, b, [e]) == Apply(mode, batch, ascii, b, e)
  {
    hide Apply;
    var r := Apply(mode, batch, ascii, b, e);
    if r.Ok? {
      assert ApplyAll(mode, batch, ascii, r.value, []) == r;
    }
  }

  lemma TickApplies(mode: Mode, env: Env, m: MachineState) returns (w: u32)
    requires Tick(mode, env, m).Live?
    ensures Tick(mode, env, m).m.trace == m.trace + [Entry(m.cpu.pc, Some(w))]
    ensures var r, b' := ApplyAll(mode, env.batch, env.ascii, m.board, TickLog(env, m, w)), Tick(mode, env, m).m.board;
            r.Ok? && r.value.mac == b'.mac && r.value.uart == b'.uart
  {
    hide LoadMem;
    hide Execute;
    hide HandlerRuns;
    hide ApplyAll;
    hide DataAccess;
    hide Typing;
    var polls := env.sched(m.clock);
    var b1 := m.board.(uart := HandlerRuns(m.board.uart, polls, env.ascii).value);
    TypingApplies(mode, env.batch, env.ascii, m.board, polls);
    LiveStep(mode, env.batch, m.(board := b1));
    var f := LoadMem(mode, b1, m.cpu.pc, 4).value;
    w := f.1;
    OneHappening(mode, env.batch, env.ascii, b1, Load(m.cpu.pc, 4));
    DataApplies(mode, env.batch, env.ascii, m.cpu, f.0, w);
    ApplyConcat(mode, env.batch, env.ascii, b1, [Load(m.cpu.pc, 4)], DataAccess(m.cpu, w));
    ApplyConcat(mode, env.batch, env.ascii, m.board, Typing(polls), [Load(m.cpu.pc, 4)] + DataAccess(m.cpu, w));
  }

  lemma FollowsConcat(b: BoardState, log: seq<Happening>, rest: seq<Happening>, ascii: int -> Text, h: seq<Mdio.Access>, k: Keys.KeyRun)
    requires Follows(b, rest, ascii, h + MacLog(log), Keys.RunKeys(k, UartLog(log), ascii))
    ensures Follows(b, log + rest, ascii, h, k)
  {
    hide Mdio.RunMac;
    hide Keys.RunKeys;
    hide MacLog;
    hide UartLog;
    MacLogConcat(log, rest);
    UartLogConcat(log, rest);
    RunKeysConcat(k, UartLog(log), UartLog(rest), ascii);
    assert h + MacLog(log + rest) == h + MacLog(log) + MacLog(rest);
  }

  lemma FollowsNothing(b: BoardState, ascii: int -> Text, h: seq<Mdio.Access>, k: Keys.KeyRun)
    requires Mdio.RunMac(h) == Ok(b.mac) && k.u == b.uart
    ensures Follows(b, [], ascii, h, k)
  {
    assert h + MacLog([]) == h;
  }

  lemma RunLogUnfold(mode: Mode, env: Env, m: MachineState, n: nat, w: u32)
    requires n > 0 && Tick(mode, env, m).Live? && Tick(mode, env, m).m.trace == m.trace + [Entry(m.cpu.pc, Some(w))]
    ensures var m1 := Tick(mode, env, m).m;
            RunLog(mode, env, m, n) == TickLog(env, m, w) + (if m1.board.nemu != NemuRunning then [] else RunLog(mode, env, m1, n - 1))
  {
    hide Tick;
    hide TickLog;
  }

  /** Over any live run the MAC and the UART are what the run's log makes of them. */
  lemma {:induction false} LoopFollows(mode: Mode, env: Env, m: MachineState, n: nat, h: seq<Mdio.Access>, k: Keys.KeyRun)
    requires Loop(mode, env, m, n).Live? && Mdio.RunMac(h) == Ok(m.board.mac) && k.u == m.board.uart
    ensures Follows(Loop(mode, env, m, n).m.board, RunLog(mode, env, m, n), env.ascii, h, k)
    decreases n
  {
    hide Tick;
    hide ApplyAll;
    hide TickLog;
    hide MacLog;
    hide UartLog;
    hide RunLog;
    hide Mdio.RunMac;
    hide Keys.RunKeys;
    var m2 := Loop(mode, env, m, n).m;
    if n == 0 {
      assert RunLog(mode, env, m, 0) == [] by { EmptyLog(mode, env, m); }
      FollowsNothing(m2.board, env.ascii, h, k);
    } else {
      var m1 := Tick(mode, env, m).m;
      var w := TickApplies(mode, env, m);
      var log := TickLog(env, m, w);
      RunLogUnfold(mode, env, m, n, w);
      LogFollows(mode, env.batch, env.ascii, m.board, log, h, k);
      var h1, k1 := h + MacLog(log), Keys.RunKeys(k, UartLog(log), env.ascii);
      if m1.board.nemu == NemuRunning {
        LoopFollows(mode, env, m1, n - 1, h1, k1);
        FollowsConcat(m2.board, log, RunLog(mode, env, m1, n - 1), env.ascii, h, k);
      } else {
        FollowsNothing(m2.board, env.ascii, h1, k1);
        FollowsConcat(m2.board, log, [], env.ascii, h, k);
      }
    }
  }

  lemma EmptyLog(mode: Mode, env: Env, m: MachineState)
    ensures RunLog(mode, env, m, 0) == []
  {
  }

  // From the boot on.

  predicate SameDevices(b: BoardState, b': BoardState) {
    b'.mac == b.mac && b'.uart == b.uart && b'.nemu == b.nemu
  }

  lemma LoadSegmentDevices(b: BoardState, buf: seq<byte>, s: Segment)
    ensures LoadSegment(b, buf, s).Ok? ==> SameDevices(b, LoadSegment(b, buf, s).value)
  {
    hide LookupFrom;
    hide Fill;
  }

  lemma LoadImageDevices(b: BoardState, file: seq<byte>, vaddr: u32)
    ensures LoadImage(b, file, vaddr).Ok? ==> SameDevices(b, LoadImage(b, file, vaddr).value)
  {
    hide LookupFrom;
    hide Splice;
  }

  lemma {:induction false} LoadFromDevices(b: BoardState, buf: seq<byte>, i: nat)
    ensures LoadFrom(b, buf, i).Ok? ==> SameDevices(b, LoadFrom(b, buf, i).value)
    decreases Phnum(buf) - i
  {
    hide LoadSegment;
    hide Seg;
    hide IsLoad;
    if i < Phnum(buf) {
      if IsLoad(buf, i) {
        LoadSegmentDevices(b, buf, Seg(buf, i));
        var r := LoadSegment(b, buf, Seg(buf, i));
        if r.Ok? { LoadFromDevices(r.value, buf, i + 1); }
      } else {
        LoadFromDevices(b, buf, i + 1);
      }
    }
  }

  lemma {:induction false} LoadKernelsDevices(b: BoardState, kernels: seq<seq<byte>>)
    ensures LoadKernels(b, kernels).Ok? ==> SameDevices(b, LoadKernels(b, kernels).value)
    decreases |kernels|
  {
    hide LoadImage;
    if kernels != [] {
      LoadImageDevices(b, kernels[0], UIMAGE_BASE);
      var r := LoadImage(b, kernels[0], UIMAGE_BASE);
      if r.Ok? { LoadKernelsDevices(r.value, kernels[1..]); }
    }
  }

  lemma BootDevices(kernels: seq<seq<byte>>, prog: Program)
    ensures InitMonitor(kernels, prog).Ok? ==>
              var b := InitMonitor(kernels, prog).value.board;
              b.mac == MacInit() && b.uart == UartInit() && b.nemu == NemuStop
  {
    hide LoadKernels;
    hide LoadFrom;
    hide LoadImage;
    hide Zeros;
    LoadKernelsDevices(BoardInit(), kernels);
    var k := LoadKernels(BoardInit(), kernels);
    if k.Ok? {
      match prog {
        case ElfFile(buf) => LoadFromDevices(k.value, buf, 0);
        case ImageFile(file) => LoadImageDevices(k.value, file, CPU_INIT_PC);
      }
    }
  }

  lemma QuietStart()
    ensures UartInit().tx == [] && UartInit().ctrl == 0
  {
  }

  /** In every live run of a booted machine: the MAC is what the run's own accesses make of it, so it is
      settled and its MDIO read register returns what the guest's history says.  The UART is what the run's
      events make of it, and with handler runs between instructions only, the accepted characters are
      those that Rx loads returned and those that wait exactly when no load found the ring empty; what was
      transmitted is the low bytes of the Tx stores, in order. */
  lemma BootedDevices(mode: Mode, env: Env, kernels: seq<seq<byte>>, prog: Program, n: nat)
    ensures InitMonitor(kernels, prog).Ok? && CpuExec(mode, env, InitMonitor(kernels, prog).value, n).Live? ==>
              var start := InitMonitor(kernels, prog).value;
              var b, log := CpuExec(mode, env, start, n).m.board, RunLog(mode, env, Start(start), n);
              var k := Keys.RunKeys(Keys.Start(), UartLog(log), env.ascii);
              && Mdio.RunMac(MacLog(log)) == Ok(b.mac) && Mdio.Settled(b.mac)
              && MacRead(b.mac, MDIO_RD, 4) == Ok(Mdio.LastRd(MacLog(log)))
              && k.u == b.uart
              && Keys.Concat(k.pieces) == k.taken + b.uart.ring.Contents()
              && (Keys.Concat(k.pieces) == k.returned + b.uart.ring.Contents() <==>
                    Keys.EmptyReads(Keys.Start(), UartLog(log), env.ascii) == 0)
              && b.uart.tx == Keys.Sent(UartLog(log)) && b.uart.ctrl == Keys.LastCtrl(0, UartLog(log))
  {
    hide InitMonitor;
    hide Loop;
    hide RunLog;
    hide Mdio.Settled;
    hide Mdio.LastRd;
    hide Keys.RunKeys;
    hide Keys.Concat;
    hide Keys.EmptyReads;
    hide Keys.Sent;
    hide Keys.LastCtrl;
    hide MacRead;
    hide MacInit;
    hide UartInit;
    if InitMonitor(kernels, prog).Ok? && CpuExec(mode, env, InitMonitor(kernels, prog).value, n).Live? {
      var m := Machine.Start(InitMonitor(kernels, prog).value);
      BootDevices(kernels, prog);
      LoopFollows(mode, env, m, n, [], Keys.Start());
      var h := MacLog(RunLog(mode, env, m, n));
      assert [] + h == h;
      Mdio.ReachableStates(h);
      Mdio.MdioReadAfterWrite(h, 4);
      Keys.AcceptedFromStart(UartLog(RunLog(mode, env, m, n)), env.ascii);
      Keys.ReturnedIff(UartLog(RunLog(mode, env, m, n)), env.ascii);
      Keys.SentFollows(Keys.Start(), UartLog(RunLog(mode, env, m, n)), env.ascii);
      Keys.CtrlFollows(Keys.Start(), UartLog(RunLog(mode, env, m, n)), env.ascii);
      QuietStart();
    }
  }
}
