// The emulated board in place: guest memories, devices and the emulator state, updated by the accesses
// of memory.c and by load_mem and store_mem.

module Platform {
  import opened Words
  import opened Outcomes
  import opened AddressMap
  import opened Ram
  import opened Uart
  import opened Emaclite
  import opened Video
  import Spec = Board

  /** A statically allocated, zero-initialised buffer. */
  method NewZeros(n: nat) returns (a: array<byte>)
    ensures fresh(a) && a.Length == n && a[..] == Zeros(n)
  {
    a := new byte[n](_ => 0);
    assert a[..] == Zeros(n);
  }

  class Hardware {
    const ddr: array<byte>
    var ddrMappedSize: u32
    const bram: array<byte>
    var bramMapped: bool
    var bramMappedSize: u32
    const vmem: array<byte>
    const uart: SerialPort
    const mac: EthernetMac
    var nemu: Spec.NemuState
    ghost const Repr: set<object>

    ghost predicate Valid() {
      && Repr == {this, ddr, bram, vmem} + uart.Repr + mac.Repr
      && ddr.Length == DDR_SIZE && bram.Length == BRAM_SIZE && vmem.Length == VMEM_SIZE
      && uart.Valid() && mac.Valid()
      && {this, ddr, bram, vmem} !! uart.Repr && {this, ddr, bram, vmem} !! mac.Repr && uart.Repr !! mac.Repr
    }

    ghost function View(): Spec.BoardState
      requires Valid()
      reads Repr
    {
      Spec.BoardState(ddr[..], ddrMappedSize, bram[..], bramMapped, bramMappedSize, uart.View(), mac.View(), vmem[..], nemu)
    }

    constructor ()
      ensures Valid() && fresh(Repr)
      ensures View() == Spec.BoardInit()
    {
      hide Zeros;
      hide UartInit;
      hide MacInit;
      var d := NewZeros(DDR_SIZE);
      var b := NewZeros(BRAM_SIZE);
      var v := NewZeros(VMEM_SIZE);
      var u := new SerialPort();
      var m := new EthernetMac();
      ddr, bram, vmem, uart, mac := d, b, v, u, m;
      ddrMappedSize, bramMappedSize, bramMapped, nemu := 0, 0, false, Spec.NemuStop;
      Repr := {this, d, b, v} + u.Repr + m.Repr;
    }

    /** The view tracks the emulator state. */
    lemma NemuInView()
      requires Valid()
      ensures View().nemu == nemu
    {
    }

    method SetNemu(state: Spec.NemuState)
      requires Valid()
      modifies this`nemu
      ensures View() == old(View()).(nemu := state)
    {
      nemu := state;
    }

    /** The key-event part of device_update. */
    method KeyEventArrives(ev: KeyEvent, ascii: int -> Text)
      requires Valid()
      modifies uart.Repr
      ensures View() == old(View()).(uart := SerialEnqueue(old(View()).uart, ev, ascii))
    {
      uart.Enqueue(ev, ascii);
    }

    method DeviceRead(dev: Device, off: nat, len: alen) returns (res: Outcome<u32>)
      requires Valid()
      modifies uart`f
      ensures res.Ok? ==> Spec.DeviceRead(old(View()), dev, off, len) == Ok((View(), res.value))
      ensures res.Dies? ==> Spec.DeviceRead(old(View()), dev, off, len) == Dies(res.why)
    {
      match dev {
        case BadP =>
          return Ok(0);
        case Ddr =>
          if !Spec.InBounds(off, len, DDR_SIZE) { return Dies(CpuAbort); }
          return Ok(ReadMaskedWord(ddr[..], off, len, Spec.SLACK));
        case Bram =>
          if !Spec.InBounds(off, len, BRAM_SIZE) { return Dies(CpuAbort); }
          return Ok(ReadMaskedWord(bram[..], off, len, Spec.SLACK));
        case Gpio =>
          return Dies(CpuAbort);
        case Serial =>
          var data := uart.Read(off);
          if data.None? { return Dies(CpuAbort); }
          return Ok(data.value);
        case Mac =>
          res := mac.Read(off, len);
        case Vga =>
          if !Spec.InBounds(off, len, VMEM_SIZE) { return Dies(CpuAbort); }
          return Ok(ReadMaskedWord(vmem[..], off, len, Spec.SLACK));
      }
    }

    method GpioWrite(off: nat, len: alen, batch: bool) returns (res: Outcome<()>)
      requires Valid()
      modifies this`nemu
      ensures res.Ok? ==> Spec.GpioWrite(old(View()), off, len, batch) == Ok(View())
      ensures res.Dies? ==> Spec.GpioWrite(old(View()), off, len, batch) == Dies(res.why)
    {
      if off != 0 || len != 1 {
        return Dies(CpuAbort);
      }
      nemu := Spec.NemuEnd;
      if batch {
        return Dies(Exited);
      }
      return Ok(());
    }

    method DeviceWrite(dev: Device, off: nat, len: alen, data: u32, batch: bool) returns (res: Outcome<()>)
      requires Valid()
      modifies Repr
      ensures res.Ok? ==> Spec.DeviceWrite(old(View()), dev, off, len, data, batch) == Ok(View())
      ensures res.Dies? ==> Spec.DeviceWrite(old(View()), dev, off, len, data, batch) == Dies(res.why)
    {
      match dev {
        case BadP =>
        case Ddr =>
          if !Spec.InBounds(off, len, DDR_SIZE) { return Dies(CpuAbort); }
          MemCpy(ddr, off, LeBytes(data, len));
        case Bram =>
          if !Spec.InBounds(off, len, BRAM_SIZE) { return Dies(CpuAbort); }
          MemCpy(bram, off, LeBytes(data, len));
        case Gpio =>
          res := GpioWrite(off, len, batch);
          return;
        case Serial =>
          var ok := uart.Write(off, data);
          if !ok { return Dies(CpuAbort); }
        case Mac =>
          res := mac.Write(off, len, data);
          return;
        case Vga =>
          if !Spec.InBounds(off, len, VMEM_SIZE) { return Dies(CpuAbort); }
          MemCpy(vmem, off, LeBytes(data, len));
      }
      return Ok(());
    }

    method VaddrRead(addr: u32, len: alen) returns (res: Outcome<u32>)
      requires Valid()
      modifies uart`f
      ensures res.Ok? ==> Spec.VaddrRead(old(View()), addr, len) == Ok((View(), res.value))
      ensures res.Dies? ==> Spec.VaddrRead(old(View()), addr, len) == Dies(res.why)
    {
      var pa := ProtAddr(addr);
      var idx := FindRegion(MMAP, pa);
      if idx == -1 {
        return Dies(CpuAbort);
      }
      res := DeviceRead(MMAP[idx].dev, pa - MMAP[idx].start, len);
    }

    method VaddrWrite(addr: u32, len: alen, data: u32, batch: bool) returns (res: Outcome<()>)
      requires Valid()
      modifies Repr
      ensures res.Ok? ==> Spec.VaddrWrite(old(View()), addr, len, data, batch) == Ok(View())
      ensures res.Dies? ==> Spec.VaddrWrite(old(View()), addr, len, data, batch) == Dies(res.why)
    {
      var pa := ProtAddr(addr);
      var idx := FindRegion(MMAP, pa);
      if idx == -1 {
        return Dies(CpuAbort);
      }
      res := DeviceWrite(MMAP[idx].dev, pa - MMAP[idx].start, len, data, batch);
    }

    method LoadMem(addr: u32, len: alen) returns (res: Outcome<u32>)
      requires Valid()
      modifies uart`f
      ensures res.Ok? ==> Spec.LoadMem(Spec.Fast, old(View()), addr, len) == Ok((View(), res.value))
      ensures res.Dies? ==> Spec.LoadMem(Spec.Fast, old(View()), addr, len) == Dies(res.why)
    {
      hide Spec.VaddrRead;
      if addr < 0x1000 {
        return Dies(CpuAbort);
      }
      var pa := ProtAddr(addr);
      if DDR_BASE <= pa && pa < DDR_BASE + DDR_SIZE {
        if pa - DDR_BASE + len > DDR_SIZE { return Dies(Undefined); }
        return Ok(ReadHandler(ddr[..], pa - DDR_BASE, len));
      } else if BRAM_BASE <= pa && pa < BRAM_BASE + BRAM_SIZE {
        if pa - BRAM_BASE + len > BRAM_SIZE { return Dies(Undefined); }
        return Ok(ReadHandler(bram[..], pa - BRAM_BASE, len));
      }
      res := VaddrRead(addr, len);
    }

    method StoreMem(addr: u32, len: alen, data: u32, batch: bool) returns (res: Outcome<()>)
      requires Valid()
      modifies Repr
      ensures res.Ok? ==> Spec.StoreMem(Spec.Fast, old(View()), addr, len, data, batch) == Ok(View())
      ensures res.Dies? ==> Spec.StoreMem(Spec.Fast, old(View()), addr, len, data, batch) == Dies(res.why)
    {
      hide Spec.VaddrWrite;
      if addr < 0x1000 {
        return Dies(CpuAbort);
      }
      var pa := ProtAddr(addr);
      if DDR_BASE <= pa && pa < DDR_BASE + DDR_SIZE {
        if pa - DDR_BASE + len > DDR_SIZE { return Dies(Undefined); }
        WriteHandler(ddr, pa - DDR_BASE, len, data);
        return Ok(());
      }
      res := VaddrWrite(addr, len, data, batch);
    }
  }
}
