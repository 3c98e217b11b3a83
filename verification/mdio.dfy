// What the Ethernet MAC keeps over whole access sequences, and what an MDIO read returns in terms of
// the guest's own writes.

module Mdio {
  import opened Words
  import opened Outcomes
  import opened Emaclite

  datatype Access = W(addr: nat, len: nat, data: u32) | R(addr: nat, len: nat)

  function Apply(m: MacState, a: Access): Outcome<MacState> {
    match a
    case W(addr, len, data) => MacWrite(m, addr, len, data)
    case R(addr, len) =>
      var _ :- MacRead(m, addr, len);
      Ok(m)
  }

  /** The state after the accesses h, oldest first. */
  function RunMac(h: seq<Access>): Outcome<MacState>
    decreases |h|
  {
    if h == [] then Ok(MacInit())
    else
      var m :- RunMac(h[..|h| - 1]);
      Apply(m, h[|h| - 1])
  }

  // BMSR_INITIAL with BMSR_ANEGCOMPLETE and BMSR_LSTATUS.
  const BMSR_LINKED: u16 := 0x786d

  predicate BmsrDetects(v: u16) {
    Combine(16, AndOp, v, PHY_DETECT_MASK) == PHY_DETECT_MASK
  }

  ghost predicate RegInv(regs: MacRegs) {
    && regs[MDIO_CTRL / 4] % 2 == 0
    && regs[TX_PING_TSR / 4] / 2 % 2 == 0
    && regs[TX_PONG_TSR / 4] % 4 == 0
    && (forall i | RX_PING / 4 <= i < RX_PING_RSR / 4 || RX_PONG / 4 <= i < RX_PONG_RSR / 4 :: regs[i] == 0)
  }

  ghost predicate PhyInv(phy: PhyRegs, inited: bool) {
    && (forall i | 0 <= i < 1024 && (i < 32 || 64 <= i || !inited) :: phy[i] == 0)
    && phy[32] < 0x8000
    && (inited ==> phy[33] == BMSR_INITIAL || phy[33] == Or16(BMSR_INITIAL, 0x24))
  }

  /** What holds between any two successful accesses. */
  ghost predicate Inv(m: MacState) {
    RegInv(m.regs) && PhyInv(m.phy, m.inited)
  }

  lemma BmsrOrIdempotent()
    ensures Or16(Or16(BMSR_INITIAL, 0x24), 0x24) == Or16(BMSR_INITIAL, 0x24)
  {
    OrTwice(16, BMSR_INITIAL, 0x24);
  }

  lemma {:induction false} OrTwice(n: nat, a: nat, b: nat)
    ensures Combine(n, OrOp, Combine(n, OrOp, a, b), b) == Combine(n, OrOp, a, b)
    decreases n
  {
    if n > 0 {
      OrTwice(n - 1, a / 2, b / 2);
      var c := Combine(n, OrOp, a, b);
      assert c / 2 == Combine(n - 1, OrOp, a / 2, b / 2);
    }
  }

  /** Or-ing bits in keeps every bit of a mask that was already covered. */
  lemma {:induction false} OrKeepsMask(n: nat, a: nat, b: nat, mask: nat)
    requires Combine(n, AndOp, a, mask) == mask
    ensures Combine(n, AndOp, Combine(n, OrOp, a, b), mask) == mask
    decreases n
  {
    if n > 0 {
      assert Combine(n - 1, AndOp, a / 2, mask / 2) == mask / 2;
      OrKeepsMask(n - 1, a / 2, b / 2, mask / 2);
      var c := Combine(n, OrOp, a, b);
      assert c / 2 == Combine(n - 1, OrOp, a / 2, b / 2);
    }
  }

  lemma StartKeeps(m: MacState)
    requires PhyInv(m.phy, m.inited)
    ensures PhyInv(StartPhy(m).phy, true) && StartPhy(m).inited
  {
  }

  lemma TransactionPhy(m: MacState)
    requires PhyInv(m.phy, m.inited)
    ensures MiiTransaction(m).Ok? ==> PhyInv(MiiTransaction(m).value.phy, true) && MiiTransaction(m).value.inited
  {
    hide StartPhy;
    hide Or16;
    StartKeeps(m);
    BmsrOrIdempotent();
  }

  lemma TransactionRegs(m: MacState)
    ensures MiiTransaction(m).Ok? ==>
              forall i | 0 <= i < 2048 && i != MDIO_RD / 4 :: MiiTransaction(m).value.regs[i] == m.regs[i]
  {
  }

  lemma ClearedCommand(regs: MacRegs, regs': MacRegs, data: u32)
    requires RegInv(regs)
    requires forall i | 0 <= i < 2048 && i != MDIO_RD / 4 :: regs'[i] == regs[MDIO_CTRL / 4 := data][i]
    ensures RegInv(regs'[MDIO_CTRL / 4 := data / 2 * 2])
  {
    EvenHalf(data);
    var r := regs'[MDIO_CTRL / 4 := data / 2 * 2];
    assert forall i | RX_PING / 4 <= i < RX_PING_RSR / 4 || RX_PONG / 4 <= i < RX_PONG_RSR / 4 :: r[i] == regs[i];
  }

  lemma EvenHalf(data: u32)
    ensures data / 2 * 2 % 2 == 0
  {
  }

  /** A transaction keeps the invariant once its command bit is cleared. */
  lemma TransactionKeeps(m: MacState, data: u32)
    requires Inv(m)
    ensures var t := MiiTransaction(m.(regs := m.regs[MDIO_CTRL / 4 := data]));
            t.Ok? ==> Inv(t.value.(regs := t.value.regs[MDIO_CTRL / 4 := data / 2 * 2]))
  {
    var m1 := m.(regs := m.regs[MDIO_CTRL / 4 := data]);
    hide MiiTransaction;
    hide PhyInv;
    hide RegInv;
    TransactionPhy(m1);
    TransactionRegs(m1);
    var t := MiiTransaction(m1);
    if t.Ok? { ClearedCommand(m.regs, t.value.regs, data); }
  }

  lemma RegUpdateKeeps(regs: MacRegs, i: nat, v: u32)
    requires RegInv(regs) && i < 2048
    requires !(RX_PING / 4 <= i < RX_PING_RSR / 4 || RX_PONG / 4 <= i < RX_PONG_RSR / 4)
    requires i == MDIO_CTRL / 4 ==> v % 2 == 0
    requires i == TX_PING_TSR / 4 ==> v / 2 % 2 == 0
    requires i == TX_PONG_TSR / 4 ==> v % 4 == 0
    ensures RegInv(regs[i := v])
  {
  }

  /** Apart from a transaction, a successful write sets one register word, with the command bits clear. */
  lemma PlainWrite(m: MacState, addr: nat, len: nat, data: u32)
    requires MacWrite(m, addr, len, data).Ok? && !(addr == MDIO_CTRL && data % 2 == 1)
    ensures var m', i := MacWrite(m, addr, len, data).value, addr / 4;
            && i < 2048 && m'.regs == m.regs[i := m'.regs[i]]
            && m'.phy == m.phy && m'.inited == m.inited
            && !(RX_PING / 4 <= i < RX_PING_RSR / 4 || RX_PONG / 4 <= i < RX_PONG_RSR / 4)
            && (i == MDIO_CTRL / 4 ==> m'.regs[i] % 2 == 0)
            && (i == TX_PING_TSR / 4 ==> m'.regs[i] / 2 % 2 == 0)
            && (i == TX_PONG_TSR / 4 ==> m'.regs[i] % 4 == 0)
  {
    hide Program;
    if addr == TX_PING_TSR {
      ClearedBits(data);
    } else if addr == TX_PONG_TSR {
      ClearedBits(data);
    }
  }

  lemma ClearedBits(data: u32)
    ensures data / 4 * 4 / 2 % 2 == 0 && data / 4 * 4 % 4 == 0
  {
    DivModUnique(data / 4 * 4, 2, 2 * (data / 4), 0);
  }

  lemma WriteKeeps(m: MacState, addr: nat, len: nat, data: u32)
    requires Inv(m) && MacWrite(m, addr, len, data).Ok?
    ensures Inv(MacWrite(m, addr, len, data).value)
  {
    if addr == MDIO_CTRL && data % 2 == 1 {
      TransactionKeeps(m, data);
    } else {
      hide MacWrite;
      hide PhyInv;
      PlainWrite(m, addr, len, data);
      RegUpdateKeeps(m.regs, addr / 4, MacWrite(m, addr, len, data).value.regs[addr / 4]);
    }
  }

  lemma {:induction false} RunKeeps(h: seq<Access>)
    requires RunMac(h).Ok?
    ensures Inv(RunMac(h).value)
    decreases |h|
  {
    if h != [] {
      RunKeeps(h[..|h| - 1]);
      match h[|h| - 1] {
        case W(addr, len, data) => WriteKeeps(RunMac(h[..|h| - 1]).value, addr, len, data);
        case R(_, _) =>
      }
    }
  }

  function PhyReg(m: MacState, phy: nat, reg: nat): u16
    requires phy < 32 && reg < 32
  {
    m.phy[32 * phy + reg]
  }

  /** The command bits are clear, the receive buffers and the PHYs other than 1 read 0, BMCR does not hold
      the reset bit, and PHY 1 has the bits that drivers use to detect it. */
  ghost predicate Settled(m: MacState) {
    && m.regs[MDIO_CTRL / 4] % 2 == 0 && m.regs[TX_PING_TSR / 4] / 2 % 2 == 0 && m.regs[TX_PONG_TSR / 4] % 4 == 0
    && (forall addr, len | InRx(addr) && MacInRange(addr, len) :: MacRead(m, addr, len) == Ok(0))
    && (forall p, r | 0 <= p < 32 && 0 <= r < 32 && p != ACTIVE_PHY :: PhyReg(m, p, r) == 0)
    && PhyReg(m, ACTIVE_PHY, BMCR) < 0x8000
    && (m.inited ==> BmsrDetects(PhyReg(m, ACTIVE_PHY, BMSR)))
  }

  /** Every successful access sequence leaves the device settled. */
  lemma ReachableStates(h: seq<Access>)
    requires RunMac(h).Ok?
    ensures Settled(RunMac(h).value)
  {
    hide RunMac;
    RunKeeps(h);
    var m := RunMac(h).value;
    PhyStates(m.phy, m.inited);
    forall p, r | 0 <= p < 32 && 0 <= r < 32 && p != ACTIVE_PHY ensures PhyReg(m, p, r) == 0 {
    }
    forall addr, len | InRx(addr) && MacInRange(addr, len) ensures MacRead(m, addr, len) == Ok(0) {
      RxRead(m, addr, len);
    }
  }

  lemma PhyStates(phy: PhyRegs, inited: bool)
    requires PhyInv(phy, inited)
    ensures phy[32] < 0x8000 && (inited ==> BmsrDetects(phy[33]))
  {
    hide Combine;
    MaskOfInitial();
    OrKeepsMask(16, BMSR_INITIAL, 0x24, PHY_DETECT_MASK);
  }

  lemma RxRead(m: MacState, addr: nat, len: nat)
    requires RegInv(m.regs) && InRx(addr) && MacInRange(addr, len)
    ensures MacRead(m, addr, len) == Ok(0)
  {
    assert RX_PING / 4 <= addr / 4 < RX_PING_RSR / 4 || RX_PONG / 4 <= addr / 4 < RX_PONG_RSR / 4;
  }

  lemma MaskOfInitial()
    ensures Combine(16, AndOp, BMSR_INITIAL, PHY_DETECT_MASK) == PHY_DETECT_MASK
  {
    AndZero(3, 3);
    assert Combine(6, AndOp, 0x1e, 0x6) == 0x6;
    assert Combine(9, AndOp, 0xf0, 0x30) == 0x30;
    assert Combine(12, AndOp, 0x784, 0x180) == 0x180;
    assert Combine(14, AndOp, 0x1e12, 0x602) == 0x602;
  }

  /** A transmit-buffer write changes one word, and never a named control register. */
  lemma TxWriteFrame(m: MacState, addr: nat, len: nat, data: u32)
    requires MacInRange(addr, len) && (InTxPing(addr) || InTxPong(addr))
    ensures var i := addr / 4;
            && MacWrite(m, addr, len, data) == Ok(m.(regs := m.regs[i := data]))
            && i !in {MDIO_ADDR / 4, MDIO_WR / 4, MDIO_RD / 4, MDIO_CTRL / 4, TX_PING_TPLR / 4, TX_PING_TSR / 4,
                      TX_PONG_TPLR / 4, TX_PONG_TSR / 4, RX_PING_RSR / 4, RX_PONG_RSR / 4}
  {
  }

  /** The data of the last write to the word-register at addr, as the guest remembers it. */
  function LastWrite(h: seq<Access>, addr: nat): u32
    decreases |h|
  {
    if h == [] then 0
    else
      var a := h[|h| - 1];
      if a.W? && a.addr == addr then a.data else LastWrite(h[..|h| - 1], addr)
  }

  /** a starts a transaction. */
  predicate Commits(a: Access) {
    a.W? && a.addr == MDIO_CTRL && a.data % 2 == 1
  }

  /** After the accesses p, a commits a write of data to PHY 1 BMCR. */
  predicate WritesBmcr(p: seq<Access>, a: Access) {
    Commits(a) && LastWrite(p, MDIO_ADDR) % 0x800 == 0x20
  }

  /** The data of the last committed BMCR write that did not request a reset, as the guest remembers it. */
  function LastBmcr(h: seq<Access>): u16
    decreases |h|
  {
    if h == [] then BMCR_INITIAL
    else
      var a, p := h[|h| - 1], h[..|h| - 1];
      var data := LastWrite(p, MDIO_WR) % 0x1_0000;
      if WritesBmcr(p, a) && data < 0x8000 then data else LastBmcr(p)
  }

  /** The guest has committed a BMCR write that requests a reset. */
  predicate ResetSeen(h: seq<Access>)
    decreases |h|
  {
    h != [] &&
    var a, p := h[|h| - 1], h[..|h| - 1];
    (WritesBmcr(p, a) && LastWrite(p, MDIO_WR) % 0x1_0000 >= 0x8000) || ResetSeen(p)
  }

  /** What the guest's history h says every PHY register holds. */
  function GuestReg(h: seq<Access>, phy: nat, reg: nat): u16 {
    if phy != ACTIVE_PHY then 0
    else
      match reg
      case 0 => LastBmcr(h)
      case 1 => if ResetSeen(h) then BMSR_LINKED else BMSR_INITIAL
      case 2 => 0x181
      case 3 => 0xb8a0
      case 4 => 0x1e1
      case 5 => 0x4de1
      case _ => 0
  }

  /** The value of the last committed register read, as the guest's history says. */
  function LastRd(h: seq<Access>): u16
    decreases |h|
  {
    if h == [] then 0
    else
      var a, p := h[|h| - 1], h[..|h| - 1];
      var cmd := LastWrite(p, MDIO_ADDR);
      if Commits(a) && cmd / 1024 % 2 == 1 then GuestReg(p, cmd / 32 % 32, cmd % 32) else LastRd(p)
  }

  lemma CommandFields(cmd: u32)
    ensures cmd % 0x800 == 0x20 <==> cmd / 1024 % 2 == 0 && cmd / 32 % 32 == 1 && cmd % 32 == 0
    ensures cmd % 0x800 == 0x420 <==> cmd / 1024 % 2 == 1 && cmd / 32 % 32 == 1 && cmd % 32 == 0
  {
    var u := cmd / 32;
    assert cmd / 1024 == u / 32;
    assert cmd == 32 * u + cmd % 32;
    assert u == 32 * (u / 32) + u % 32;
    var q := u / 32;
    assert q == 2 * (q / 2) + q % 2;
    DivModUnique(cmd, 0x800, q / 2, 1024 * (q % 2) + 32 * (u % 32) + cmd % 32);
  }

  /** The register file that GuestReg describes. */
  function GuestRegs(h: seq<Access>): PhyRegs {
    InitPhy(MacInit().phy)[32 := GuestReg(h, ACTIVE_PHY, BMCR)][33 := GuestReg(h, ACTIVE_PHY, BMSR)]
  }

  lemma GuestRegsAre(h: seq<Access>, phy: nat, reg: nat)
    requires phy < 32 && reg < 32
    ensures GuestRegs(h)[32 * phy + reg] == GuestReg(h, phy, reg)
  {
    hide LastBmcr;
    hide ResetSeen;
    hide Or16;
  }

  ghost predicate Tracks(m: MacState, h: seq<Access>) {
    && m.regs[MDIO_ADDR / 4] == LastWrite(h, MDIO_ADDR)
    && m.regs[MDIO_WR / 4] == LastWrite(h, MDIO_WR)
    && m.regs[MDIO_RD / 4] == LastRd(h)
    && StartPhy(m).phy == GuestRegs(h)
  }

  /** After any accesses the MDIO registers hold what the guest's own writes say, and so do all registers
      of all PHYs from the first transaction on. */
  lemma {:induction false} RunTracks(h: seq<Access>)
    requires RunMac(h).Ok?
    ensures Tracks(RunMac(h).value, h)
    decreases |h|
  {
    hide Tracks;
    hide Apply;
    if h == [] {
      InitTracks();
    } else {
      var p := h[..|h| - 1];
      RunTracks(p);
      ApplyTracks(RunMac(p).value, p, h[|h| - 1]);
      assert h == p + [h[|h| - 1]];
    }
  }

  lemma InitTracks()
    ensures Tracks(MacInit(), [])
  {
  }

  lemma ApplyTracks(m: MacState, p: seq<Access>, a: Access)
    requires Tracks(m, p) && Apply(m, a).Ok?
    ensures Tracks(Apply(m, a).value, p + [a])
  {
    hide GuestReg;
    assert (p + [a])[..|p|] == p;
    if Commits(a) {
      CommitTracks(m, p, a);
    } else {
      SameGuestRegs(p, a);
      if a.W? {
        hide MacWrite;
        PlainWrite(m, a.addr, a.len, a.data);
        PlainTracks(m, p, a);
      }
    }
  }

  /** An access that commits nothing changes no PHY register. */
  lemma SameGuestRegs(p: seq<Access>, a: Access)
    requires !Commits(a)
    ensures GuestRegs(p + [a]) == GuestRegs(p) && LastRd(p + [a]) == LastRd(p)
  {
    assert (p + [a])[..|p|] == p;
  }

  lemma PlainTracks(m: MacState, p: seq<Access>, a: Access)
    requires Tracks(m, p) && !Commits(a) && a.W? && Apply(m, a).Ok?
    ensures var m' := Apply(m, a).value;
            && m'.regs[MDIO_ADDR / 4] == LastWrite(p + [a], MDIO_ADDR)
            && m'.regs[MDIO_WR / 4] == LastWrite(p + [a], MDIO_WR)
            && m'.regs[MDIO_RD / 4] == m.regs[MDIO_RD / 4]
  {
    hide GuestRegs;
    hide StartPhy;
    hide LastRd;
    assert (p + [a])[..|p|] == p;
  }

  /** What a transaction makes of the PHY registers and of the read register. */
  lemma CommitTracks(m: MacState, p: seq<Access>, a: Access)
    requires Tracks(m, p) && Commits(a) && Apply(m, a).Ok?
    ensures Tracks(Apply(m, a).value, p + [a])
  {
    hide Apply;
    hide GuestRegs;
    hide GuestReg;
    hide StartPhy;
    var h := p + [a];
    assert h[..|p|] == p;
    var cmd := LastWrite(p, MDIO_ADDR);
    CommandFields(cmd);
    GuestRegsAre(p, cmd / 32 % 32, cmd % 32);
    GuestRegsStep(p, a);
    CommitEffect(m, a);
  }

  lemma CommitEffect(m: MacState, a: Access)
    requires Commits(a) && Apply(m, a).Ok?
    ensures var m', cmd, data := Apply(m, a).value, m.regs[MDIO_ADDR / 4], m.regs[MDIO_WR / 4] % 0x1_0000;
            var phy := StartPhy(m).phy;
            && m'.regs[MDIO_ADDR / 4] == cmd && m'.regs[MDIO_WR / 4] == m.regs[MDIO_WR / 4]
            && m'.regs[MDIO_RD / 4] == (if cmd / 1024 % 2 == 1 then phy[32 * (cmd / 32 % 32) + cmd % 32] else m.regs[MDIO_RD / 4])
            && StartPhy(m').phy ==
                 if cmd % 0x800 != 0x20 then phy
                 else if data < 0x8000 then phy[32 := data]
                 else phy[33 := Or16(phy[33], 0x24)]
  {
    hide Or16;
    hide InitPhy;
    CommandFields(m.regs[MDIO_ADDR / 4]);
  }

  lemma {:induction false} OrZero(n: nat, x: nat)
    requires x < Pow2(n)
    ensures Combine(n, OrOp, x, 0) == x
    decreases n
  {
    if n > 0 {
      OrZero(n - 1, x / 2);
    }
  }

  lemma OrStep(n: nat, a: nat, b: nat, c: nat)
    requires n > 0 && Combine(n - 1, OrOp, a / 2, b / 2) == c / 2
    requires c % 2 == if a % 2 == 1 || b % 2 == 1 then 1 else 0
    ensures Combine(n, OrOp, a, b) == c
  {
  }

  lemma LinkedValue()
    ensures Or16(BMSR_INITIAL, 0x24) == BMSR_LINKED && Or16(BMSR_LINKED, 0x24) == BMSR_LINKED
  {
    hide Combine;
    assert Pow2(10) > 0x1e1;
    OrZero(10, 0x1e1);
    OrStep(11, 0x3c2, 0x1, 0x3c3);
    OrStep(12, 0x784, 0x2, 0x786);
    OrStep(13, 0xf09, 0x4, 0xf0d);
    OrStep(14, 0x1e12, 0x9, 0x1e1b);
    OrStep(15, 0x3c24, 0x12, 0x3c36);
    OrStep(16, 0x7849, 0x24, 0x786d);
    BmsrOrIdempotent();
  }

  lemma GuestRegsStep(p: seq<Access>, a: Access)
    requires Commits(a)
    ensures var data := LastWrite(p, MDIO_WR) % 0x1_0000;
            GuestRegs(p + [a]) ==
              if LastWrite(p, MDIO_ADDR) % 0x800 != 0x20 then GuestRegs(p)
              else if data < 0x8000 then GuestRegs(p)[32 := data]
              else GuestRegs(p)[33 := Or16(GuestRegs(p)[33], 0x24)]
  {
    assert (p + [a])[..|p|] == p;
    LinkedValue();
    hide Or16;
    hide InitPhy;
    hide LastWrite;
  }

  /** Across any interleaving of accesses, the MDIO read register returns what the guest's history says the
      last committed register read should return: for PHY 1 BMCR the last committed write or the initial
      value, for every register of another PHY 0. */
  lemma MdioReadAfterWrite(h: seq<Access>, len: nat)
    requires RunMac(h).Ok? && MacInRange(MDIO_RD, len)
    ensures MacRead(RunMac(h).value, MDIO_RD, len) == Ok(LastRd(h))
  {
    RunTracks(h);
  }

  /** What the status registers hold, in terms of the last data written to them. */
  ghost predicate StatusTracks(regs: MacRegs, h: seq<Access>) {
    && regs[MDIO_CTRL / 4] == LastWrite(h, MDIO_CTRL) / 2 * 2
    && regs[TX_PONG_TSR / 4] == LastWrite(h, TX_PONG_TSR) / 4 * 4
    && regs[TX_PING_TPLR / 4] == LastWrite(h, TX_PING_TPLR)
    && regs[TX_PONG_TPLR / 4] == LastWrite(h, TX_PONG_TPLR)
    && regs[TX_PING_TSR / 4] ==
         (if LastWrite(h, TX_PING_TSR) / 2 % 2 == 0 then LastWrite(h, TX_PING_TSR) else LastWrite(h, TX_PING_TSR) / 4 * 4)
  }

  lemma StatusStep(m: MacState, p: seq<Access>, a: Access)
    requires StatusTracks(m.regs, p) && Apply(m, a).Ok?
    ensures StatusTracks(Apply(m, a).value.regs, p + [a])
  {
    hide Program;
    hide LastWrite;
    LastWriteStep(p, a, MDIO_CTRL);
    LastWriteStep(p, a, TX_PONG_TSR);
    LastWriteStep(p, a, TX_PING_TSR);
    LastWriteStep(p, a, TX_PING_TPLR);
    LastWriteStep(p, a, TX_PONG_TPLR);
    if a.W? && a.addr == MDIO_CTRL && a.data % 2 == 1 {
      TransactionRegs(m.(regs := m.regs[MDIO_CTRL / 4 := a.data]));
      hide MiiTransaction;
    }
  }

  lemma LastWriteStep(p: seq<Access>, a: Access, addr: nat)
    ensures LastWrite(p + [a], addr) == if a.W? && a.addr == addr then a.data else LastWrite(p, addr)
  {
    assert (p + [a])[..|p|] == p;
  }

  lemma {:induction false} StatusRun(h: seq<Access>)
    requires RunMac(h).Ok?
    ensures StatusTracks(RunMac(h).value.regs, h)
    decreases |h|
  {
    hide StatusTracks;
    hide Apply;
    if h == [] {
      StatusInit();
    } else {
      var p := h[..|h| - 1];
      StatusRun(p);
      StatusStep(RunMac(p).value, p, h[|h| - 1]);
      assert h == p + [h[|h| - 1]];
    }
  }

  lemma StatusInit()
    ensures StatusTracks(MacInit().regs, [])
  {
  }

  /** Across any interleaving of accesses, a read of a status register returns the data last written there,
      without the command bits that the device clears. */
  lemma StatusReadAfterWrite(h: seq<Access>, len: nat)
    requires RunMac(h).Ok? && 1 <= len <= 4
    ensures var m, ping := RunMac(h).value, LastWrite(h, TX_PING_TSR);
            && MacRead(m, MDIO_CTRL, len) == Ok(LastWrite(h, MDIO_CTRL) / 2 * 2)
            && MacRead(m, TX_PONG_TSR, len) == Ok(LastWrite(h, TX_PONG_TSR) / 4 * 4)
            && MacRead(m, TX_PING_TSR, len) == Ok(if ping / 2 % 2 == 0 then ping else ping / 4 * 4)
  {
    hide RunMac;
    hide LastWrite;
    StatusRun(h);
  }

  /** The last data written to transmit word k of the buffer at base, as the guest remembers it. */
  function LastTx(h: seq<Access>, word: nat): u32
    decreases |h|
  {
    if h == [] then 0
    else
      var a := h[|h| - 1];
      if a.W? && (InTxPing(a.addr) || InTxPong(a.addr)) && a.addr / 4 == word then a.data
      else LastTx(h[..|h| - 1], word)
  }

  lemma {:induction false} TxTracks(h: seq<Access>, word: nat)
    requires RunMac(h).Ok? && (word <= 504 || TX_PONG / 4 <= word <= 1020)
    ensures RunMac(h).value.regs[word] == LastTx(h, word)
    decreases |h|
  {
    if h != [] {
      TxTracks(h[..|h| - 1], word);
    }
  }

  /** The first eight bytes of a transmit buffer, as the guest remembers them. */
  function TxHistory(h: seq<Access>, word: nat): (s: seq<byte>)
    ensures |s| == 8
  {
    LeBytes(LastTx(h, word), 4) + LeBytes(LastTx(h, word + 1), 4)
  }

  /** Programming replaces the first n bytes of an address. */
  lemma ProgramBytes(mac: MacAddr, regs: MacRegs, base: nat, n: nat)
    requires base + 2 <= 2048 && n <= 6
    ensures Program(mac, regs, base, n) == (LeBytes(regs[base], 4) + LeBytes(regs[base + 1], 4))[..n] + mac[n..]
  {
    hide LeBytes;
  }

  lemma RunSnoc(h: seq<Access>, a: Access)
    requires RunMac(h).Ok?
    ensures RunMac(h + [a]) == Apply(RunMac(h).value, a)
  {
    assert (h + [a])[..|h|] == h;
  }

  lemma PingCommand(m: MacState, len: nat, data: u32)
    requires m.regs[TX_PING_TPLR / 4] <= 6 && 1 <= len <= 4 && data / 2 % 2 == 1
    ensures var r := Apply(m, W(TX_PING_TSR, len, data));
            r.Ok? && r.value.ping == Program(m.ping, m.regs, 0, m.regs[TX_PING_TPLR / 4])
  {
    hide Program;
  }

  lemma PongCommand(m: MacState, len: nat, data: u32)
    requires m.regs[TX_PONG_TPLR / 4] <= 6 && 1 <= len <= 4 && data % 4 != 0
    ensures var r := Apply(m, W(TX_PONG_TSR, len, data));
            r.Ok? && r.value.pong == Program(m.pong, m.regs, TX_PONG / 4, m.regs[TX_PONG_TPLR / 4])
  {
    hide Program;
  }

  /** Programming with a length n of at most six leaves the first n bytes of the station address equal to
      the first n bytes of the words the guest last wrote to the ping buffer, and the rest as it was; with
      six, the whole address. */
  lemma ProgramPing(h: seq<Access>, len: nat, data: u32)
    requires RunMac(h).Ok? && LastWrite(h, TX_PING_TPLR) <= 6
    requires 1 <= len <= 4 && data / 2 % 2 == 1
    ensures var n, r := LastWrite(h, TX_PING_TPLR), RunMac(h + [W(TX_PING_TSR, len, data)]);
            && r.Ok?
            && r.value.ping == TxHistory(h, 0)[..n] + RunMac(h).value.ping[n..]
  {
    hide LastTx;
    hide LastWrite;
    hide Program;
    hide LeBytes;
    hide RunMac;
    hide Apply;
    var m := RunMac(h).value;
    StatusRun(h);
    RunSnoc(h, W(TX_PING_TSR, len, data));
    PingCommand(m, len, data);
    ProgramBytes(m.ping, m.regs, 0, m.regs[TX_PING_TPLR / 4]);
    TxTracks(h, 0);
    TxTracks(h, 1);
  }

  /** No other access changes a station address. */
  lemma AddressFrame(m: MacState, a: Access)
    requires Apply(m, a).Ok?
    ensures !(a.W? && a.addr == TX_PING_TSR && a.data / 2 % 2 == 1) ==> Apply(m, a).value.ping == m.ping
    ensures !(a.W? && a.addr == TX_PONG_TSR && a.data % 4 != 0) ==> Apply(m, a).value.pong == m.pong
  {
    hide Program;
    hide InitPhy;
    hide Or16;
  }

  /** The addresses that can be read, and those that can be written. */
  predicate Readable(addr: nat) {
    addr in {0x7ec, 0x7f0, 0x7fc, 0xffc} || 0x1000 <= addr <= 0x17f8 || 0x1800 <= addr <= 0x1ff8
  }

  predicate Writable(addr: nat) {
    addr <= 0x7e0 || 0x800 <= addr <= 0xff0 || addr in {0x7e4, 0x7e8, 0x7f0, 0x7f4, 0x7fc, 0xff4, 0xffc, 0x17fc, 0x1ffc}
  }

  /** A write of this command register starts the write of a PHY 1 register other than BMCR, which is not
      supported. */
  predicate Unsupported(cmd: u32) {
    cmd / 1024 % 2 == 0 && cmd / 32 % 32 == ACTIVE_PHY && cmd % 32 != BMCR
  }

  /** How every access ends. */
  lemma AccessOutcomes(m: MacState, addr: nat, len: nat, data: u32)
    requires 1 <= len <= 4
    ensures if Readable(addr) then MacRead(m, addr, len).Ok? else MacRead(m, addr, len) == Dies(CpuAbort)
    ensures var w := MacWrite(m, addr, len, data);
            && (w == Dies(CpuAbort) <==>
                  !Writable(addr) || (addr == MDIO_CTRL && data % 2 == 1 && Unsupported(m.regs[MDIO_ADDR / 4])))
            && (w == Dies(Undefined) <==>
                  || (addr == TX_PING_TSR && data / 2 % 2 == 1 && m.regs[TX_PING_TPLR / 4] > 6)
                  || (addr == TX_PONG_TSR && data % 4 != 0 && m.regs[TX_PONG_TPLR / 4] > 6))
            && (w.Dies? ==> w.why in {CpuAbort, Undefined})
  {
    hide Program;
    hide InitPhy;
    hide Or16;
  }

  /** The same for the pong buffer, which either of the two command bits programs. */
  lemma ProgramPong(h: seq<Access>, len: nat, data: u32)
    requires RunMac(h).Ok? && LastWrite(h, TX_PONG_TPLR) <= 6
    requires 1 <= len <= 4 && data % 4 != 0
    ensures var n, r := LastWrite(h, TX_PONG_TPLR), RunMac(h + [W(TX_PONG_TSR, len, data)]);
            && r.Ok?
            && r.value.pong == TxHistory(h, TX_PONG / 4)[..n] + RunMac(h).value.pong[n..]
  {
    hide LastTx;
    hide LastWrite;
    hide Program;
    hide LeBytes;
    hide RunMac;
    hide Apply;
    var m := RunMac(h).value;
    StatusRun(h);
    RunSnoc(h, W(TX_PONG_TSR, len, data));
    PongCommand(m, len, data);
    ProgramBytes(m.pong, m.regs, TX_PONG / 4, m.regs[TX_PONG_TPLR / 4]);
    TxTracks(h, TX_PONG / 4);
    TxTracks(h, TX_PONG / 4 + 1);
  }
}
