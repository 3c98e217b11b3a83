// What loads and stores do at addresses outside memory: aborts, the bad-address region, the GPIO and the UART
// registers.

module RegionLaws {
  import opened Words
  import opened Outcomes
  import opened AddressMap
  import opened Ram
  import opened Uart
  import opened Board
  import opened Runs
  import DeviceRuns

  /** The preventive check: nothing below 0x1000 can be loaded or stored. */
  lemma LowAborts(mode: Mode, b: BoardState, addr: u32, len: alen, data: u32, batch: bool)
    requires addr < 0x1000
    ensures LoadMem(mode, b, addr, len) == Dies(CpuAbort) && StoreMem(mode, b, addr, len, data, batch) == Dies(CpuAbort)
  {
  }

  /** An access aborts at every address that no row of the table contains. */
  lemma UnroutedAborts(mode: Mode, b: BoardState, addr: u32, len: alen, data: u32, batch: bool)
    requires forall r: Region | r in MMAP :: !r.Contains(ProtAddr(addr))
    ensures LoadMem(mode, b, addr, len) == Dies(CpuAbort) && StoreMem(mode, b, addr, len, data, batch) == Dies(CpuAbort)
  {
    hide ProtAddr;
    assert MMAP[1] in MMAP && MMAP[2] in MMAP;
    assert MMAP[1].Contains(ProtAddr(addr)) <==> InDdr(ProtAddr(addr));
    assert MMAP[2].Contains(ProtAddr(addr)) <==> InBram(ProtAddr(addr));
    hide LookupFrom;
  }

  /** Reads of the bad-address region return 0 and writes to it are ignored. */
  lemma BadAddress(mode: Mode, b: BoardState, addr: u32, len: alen, data: u32, batch: bool)
    requires BADP_ADDR <= ProtAddr(addr) < BADP_ADDR + BADP_SIZE
    ensures LoadMem(mode, b, addr, len) == Ok((b, 0)) && StoreMem(mode, b, addr, len, data, batch) == Ok(b)
  {
    NotLow(addr);
    hide ProtAddr;
    assert MMAP[0].Contains(ProtAddr(addr)) && MMAP[0] in MMAP;
  }

  lemma NotLow(addr: u32)
    ensures addr < 0x1000 ==> ProtAddr(addr) == addr
  {
  }

  lemma GpioRow(pa: u32)
    requires GPIO_BASE <= pa < GPIO_BASE + GPIO_SIZE
    ensures Lookup(MMAP, pa) == Some(MMAP[3])
  {
    assert MMAP[3].Contains(pa) && MMAP[3] in MMAP;
  }

  /** The GPIO: only a byte store at its first address works; it ends the run, and in batch mode the
      process.  Every other store aborts, and so does every load. */
  lemma GpioAccess(mode: Mode, b: BoardState, addr: u32, len: alen, data: u32, batch: bool)
    requires AtGpio(addr)
    ensures LoadMem(mode, b, addr, len) == Dies(CpuAbort)
    ensures StoreMem(mode, b, addr, len, data, batch) ==
            if ProtAddr(addr) != GPIO_BASE || len != 1 then Dies(CpuAbort)
            else if batch then Dies(Exited)
            else Ok(b.(nemu := NemuEnd))
  {
    NotLow(addr);
    hide ProtAddr;
    hide LookupFrom;
    GpioRow(ProtAddr(addr));
  }

  /** The UART: loads work exactly at Rx, STAT and CTRL, stores exactly at Tx and CTRL; a Tx store sends its low
      byte, and CTRL reads back what was stored. */
  lemma UartRegisters(u: UartState, addr: nat, data: u32)
    ensures SerialRead(u, addr).Some? <==> addr in {0x0, 0x8, 0xC}
    ensures SerialWrite(u, addr, data).Some? <==> addr in {0x4, 0xC}
    ensures SerialWrite(u, 0x4, data) == Some(u.(tx := u.tx + [data % 0x100]))
    ensures SerialWrite(u, 0xC, data).Some? && SerialRead(SerialWrite(u, 0xC, data).value, 0xC).Some?
    ensures SerialRead(SerialWrite(u, 0xC, data).value, 0xC).value.1 == data
  {
  }

  /** UART accesses of the machine, including those that abort. */
  lemma UartAccess(mode: Mode, b: BoardState, addr: u32, len: alen, data: u32, batch: bool)
    requires DeviceRuns.AtSerial(addr)
    ensures LoadMem(mode, b, addr, len).Ok? <==> ProtAddr(addr) - SERIAL_ADDR in {0x0, 0x8, 0xC}
    ensures StoreMem(mode, b, addr, len, data, batch).Ok? <==> ProtAddr(addr) - SERIAL_ADDR in {0x4, 0xC}
  {
    DeviceRuns.SerialLoad(mode, b, addr, len);
    UartRegisters(b.uart, ProtAddr(addr) - SERIAL_ADDR, data);
    DeviceRuns.SerialRow(ProtAddr(addr));
    NotLow(addr);
    hide ProtAddr;
    hide LookupFrom;
    hide SerialRead;
    hide SerialWrite;
    hide LoadMem;
  }
}
