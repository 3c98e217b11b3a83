// The Ethernet MAC (src/dev/mac.c): a register file of 2048 words with self-clearing command bits,
// and a PHY register file behind MDIO transactions.

module Emaclite {
  import opened Words
  import opened Outcomes
  import opened Ram
  import AddressMap

  const MDIO_ADDR: int := 0x7e4
  const MDIO_WR: int := 0x7e8
  const MDIO_RD: int := 0x7ec
  const MDIO_CTRL: int := 0x7f0
  const TX_PING_TPLR: int := 0x7f4
  const TX_PING_TSR: int := 0x7fc
  const TX_PONG: int := 0x800
  const TX_PONG_TPLR: int := 0xff4
  const TX_PONG_TSR: int := 0xffc
  const RX_PING: int := 0x1000
  const RX_PING_RSR: int := 0x17fc
  const RX_PONG: int := 0x1800
  const RX_PONG_RSR: int := 0x1ffc

  const ACTIVE_PHY: int := 1
  const BMCR: int := 0
  const BMSR: int := 1
  const BMCR_INITIAL: int := 0x3100
  const BMSR_INITIAL: int := 0x7849
  const PHY_DETECT_MASK: int := 0x1808

  type MacRegs = s: seq<u32> | |s| == 2048 witness seq(2048, _ => 0)
  // phy_regs[phy][reg] is the element 32 * phy + reg.
  type PhyRegs = s: seq<u16> | |s| == 1024 witness seq(1024, _ => 0)
  type MacAddr = s: seq<byte> | |s| == 6 witness [0, 0, 0, 0, 0, 0]

  datatype MacState = MacState(regs: MacRegs, phy: PhyRegs, inited: bool, ping: MacAddr, pong: MacAddr)

  function MacInit(): MacState {
    MacState(seq(2048, _ => 0), seq(1024, _ => 0), false, [0, 0, 0, 0, 0, 0], [0, 0, 0, 0, 0, 0])
  }

  function Or16(a: u16, b: u16): u16 {
    Pow2Values();
    Combine(16, OrOp, a, b)
  }

  predicate InTxPing(addr: int) { 0 <= addr <= MDIO_ADDR - 4 }

  predicate InTxPong(addr: int) { TX_PONG <= addr <= TX_PONG_TPLR - 4 }

  predicate InRx(addr: int) {
    RX_PING <= addr <= RX_PING_RSR - 4 || RX_PONG <= addr <= RX_PONG_RSR - 4
  }

  predicate MacInRange(addr: nat, len: nat) {
    addr < AddressMap.MAC_SIZE && addr + len <= AddressMap.MAC_SIZE
  }

  /** The bytes of the transmit buffer that starts at word base. */
  function TxBytes(regs: MacRegs, base: nat, n: nat): (s: seq<byte>)
    requires base + 2 <= 2048 && n <= 6
    ensures |s| == n
  {
    (LeBytes(regs[base], 4) + LeBytes(regs[base + 1], 4))[..n]
  }

  /** memcpy of n transmit-buffer bytes over a station address. */
  function Program(mac: MacAddr, regs: MacRegs, base: nat, n: nat): MacAddr
    requires base + 2 <= 2048 && n <= 6
  {
    Splice(mac, 0, TxBytes(regs, base, n))
  }

  function InitPhy(phy: PhyRegs): PhyRegs {
    phy[34 := 0x181][35 := 0xb8a0][33 := PHY_DETECT_MASK][32 := BMCR_INITIAL][33 := BMSR_INITIAL]
       [36 := 0x1e1][37 := 0x4de1]
  }

  /** The one-time initialisation at the head of mii_transaction. */
  function StartPhy(m: MacState): MacState {
    if m.inited then m else m.(phy := InitPhy(m.phy), inited := true)
  }

  /** mii_transaction */
  function MiiTransaction(m: MacState): Outcome<MacState> {
    var m1 := StartPhy(m);
    var a := m.regs[MDIO_ADDR / 4];
    var reg, phy, op := a % 32, a / 32 % 32, a / 1024 % 2;
    if op == 0 then
      var data := m.regs[MDIO_WR / 4] % 0x1_0000;
      if phy != ACTIVE_PHY then Ok(m1)
      else if reg == BMCR then
        if data >= 0x8000 then Ok(m1.(phy := m1.phy[33 := Or16(m1.phy[33], 0x24)]))
        else Ok(m1.(phy := m1.phy[32 := data]))
      else Dies(CpuAbort)
    else
      Ok(m1.(regs := m1.regs[MDIO_RD / 4 := m1.phy[32 * phy + reg]]))
  }

  /** mac_read, which changes nothing. */
  function MacRead(m: MacState, addr: nat, len: nat): Outcome<u32> {
    if !MacInRange(addr, len) then Dies(CpuAbort)
    else if addr == TX_PING_TSR || addr == TX_PONG_TSR || InRx(addr) || addr == MDIO_RD || addr == MDIO_CTRL then
      Ok(m.regs[addr / 4])
    else Dies(CpuAbort)
  }

  /** mac_write; len does not limit how much of the register changes. */
  function MacWrite(m: MacState, addr: nat, len: nat, data: u32): Outcome<MacState> {
    if !MacInRange(addr, len) then Dies(CpuAbort)
    else if addr == TX_PING_TSR then
      if data / 2 % 2 == 0 then Ok(m.(regs := m.regs[addr / 4 := data]))
      else if m.regs[TX_PING_TPLR / 4] > 6 then Dies(Undefined)
      else Ok(m.(ping := Program(m.ping, m.regs, 0, m.regs[TX_PING_TPLR / 4]), regs := m.regs[addr / 4 := data / 4 * 4]))
    else if addr == TX_PONG_TSR then
      if data % 4 == 0 then Ok(m.(regs := m.regs[addr / 4 := data]))
      else if m.regs[TX_PONG_TPLR / 4] > 6 then Dies(Undefined)
      else Ok(m.(pong := Program(m.pong, m.regs, TX_PONG / 4, m.regs[TX_PONG_TPLR / 4]), regs := m.regs[addr / 4 := data / 4 * 4]))
    else if addr == MDIO_CTRL then
      var m1 := m.(regs := m.regs[addr / 4 := data]);
      if data % 2 == 0 then Ok(m1)
      else
        var m2 :- MiiTransaction(m1);
        Ok(m2.(regs := m2.regs[addr / 4 := data / 2 * 2]))
    else if InTxPing(addr) || InTxPong(addr) || addr == TX_PING_TPLR || addr == TX_PONG_TPLR
            || addr == RX_PING_RSR || addr == RX_PONG_RSR || addr == MDIO_ADDR || addr == MDIO_WR then
      Ok(m.(regs := m.regs[addr / 4 := data]))
    else Dies(CpuAbort)
  }

  class EthernetMac {
    const regs: array<u32>
    const phyRegs: array<u16>
    const pingMac: array<byte>
    const pongMac: array<byte>
    var inited: bool
    ghost const Repr: set<object>

    ghost predicate Valid() {
      && Repr == {this, regs, phyRegs, pingMac, pongMac}
      && regs.Length == 2048 && phyRegs.Length == 1024 && pingMac.Length == 6 && pongMac.Length == 6
      && pingMac != pongMac
    }

    ghost function View(): MacState
      requires Valid()
      reads Repr
    {
      MacState(regs[..], phyRegs[..], inited, pingMac[..], pongMac[..])
    }

    constructor ()
      ensures Valid() && fresh(Repr)
      ensures View() == MacInit()
    {
      var r := new u32[2048](_ => 0);
      var p := new u16[1024](_ => 0);
      var a := new byte[6](_ => 0);
      var b := new byte[6](_ => 0);
      regs, phyRegs, pingMac, pongMac, inited := r, p, a, b, false;
      Repr := {this, r, p, a, b};
      new;
      assert regs[..] == MacInit().regs;
      assert phyRegs[..] == MacInit().phy;
    }

    method StartPhyRegs()
      requires Valid()
      modifies this`inited, phyRegs
      ensures View() == StartPhy(old(View()))
    {
      if !inited {
        phyRegs[34] := 0x181;
        phyRegs[35] := 0xb8a0;
        phyRegs[33] := PHY_DETECT_MASK;
        phyRegs[32] := BMCR_INITIAL;
        phyRegs[33] := BMSR_INITIAL;
        phyRegs[36] := 0x1e1;
        phyRegs[37] := 0x4de1;
        inited := true;
      }
    }

    method Transaction() returns (ok: bool)
      requires Valid()
      modifies this`inited, regs, phyRegs
      ensures Valid()
      ensures ok <==> MiiTransaction(old(View())).Ok?
      ensures ok ==> MiiTransaction(old(View())) == Ok(View())
      ensures !ok ==> MiiTransaction(old(View())) == Dies(CpuAbort)
    {
      StartPhyRegs();
      var a := regs[MDIO_ADDR / 4];
      var reg, phy, op := a % 32, a / 32 % 32, a / 1024 % 2;
      if op == 0 {
        var data := regs[MDIO_WR / 4] % 0x1_0000;
        if phy != ACTIVE_PHY {
          return true;
        }
        if reg == BMCR {
          if data >= 0x8000 {
            phyRegs[33] := Or16(phyRegs[33], 0x24);
          } else {
            phyRegs[32] := data;
          }
        } else {
          return false;
        }
      } else {
        regs[MDIO_RD / 4] := phyRegs[32 * phy + reg];
      }
      ok := true;
    }

    method Read(addr: nat, len: nat) returns (res: Outcome<u32>)
      requires Valid()
      ensures res == MacRead(View(), addr, len)
    {
      if !MacInRange(addr, len) {
        return Dies(CpuAbort);
      }
      if addr == TX_PING_TSR || addr == TX_PONG_TSR || InRx(addr) || addr == MDIO_RD || addr == MDIO_CTRL {
        return Ok(regs[addr / 4]);
      }
      return Dies(CpuAbort);
    }

    method ProgramPing()
      requires Valid() && regs[TX_PING_TPLR / 4] <= 6
      modifies pingMac
      ensures View() == old(View()).(ping := Program(old(View()).ping, old(View()).regs, 0, old(View()).regs[TX_PING_TPLR / 4]))
    {
      MemCpy(pingMac, 0, TxBytes(regs[..], 0, regs[TX_PING_TPLR / 4]));
    }

    method ProgramPong()
      requires Valid() && regs[TX_PONG_TPLR / 4] <= 6
      modifies pongMac
      ensures View() == old(View()).(pong := Program(old(View()).pong, old(View()).regs, TX_PONG / 4, old(View()).regs[TX_PONG_TPLR / 4]))
    {
      MemCpy(pongMac, 0, TxBytes(regs[..], TX_PONG / 4, regs[TX_PONG_TPLR / 4]));
    }

    method Write(addr: nat, len: nat, data: u32) returns (res: Outcome<()>)
      requires Valid()
      modifies this`inited, regs, phyRegs, pingMac, pongMac
      ensures Valid()
      ensures res.Ok? ==> MacWrite(old(View()), addr, len, data) == Ok(View())
      ensures res.Dies? ==> MacWrite(old(View()), addr, len, data) == Dies(res.why)
    {
      if !MacInRange(addr, len) {
        return Dies(CpuAbort);
      }
      if addr == TX_PING_TSR {
        if data / 2 % 2 == 0 {
          regs[addr / 4] := data;
        } else {
          if regs[TX_PING_TPLR / 4] > 6 {
            return Dies(Undefined);
          }
          ProgramPing();
          regs[addr / 4] := data / 4 * 4;
        }
      } else if addr == TX_PONG_TSR {
        if data % 4 == 0 {
          regs[addr / 4] := data;
        } else {
          if regs[TX_PONG_TPLR / 4] > 6 {
            return Dies(Undefined);
          }
          ProgramPong();
          regs[addr / 4] := data / 4 * 4;
        }
      } else if addr == MDIO_CTRL {
        regs[addr / 4] := data;
        if data % 2 != 0 {
          assert View() == old(View()).(regs := old(View()).regs[addr / 4 := data]);
          var ok := Transaction();
          if !ok {
            return Dies(CpuAbort);
          }
          regs[addr / 4] := data / 2 * 2;
        }
      } else if InTxPing(addr) || InTxPong(addr) || addr == TX_PING_TPLR || addr == TX_PONG_TPLR
                || addr == RX_PING_RSR || addr == RX_PONG_RSR || addr == MDIO_ADDR || addr == MDIO_WR {
        regs[addr / 4] := data;
      } else {
        return Dies(CpuAbort);
      }
      return Ok(());
    }
  }
}
