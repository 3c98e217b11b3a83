// The state reachable through memory-mapped accesses, and the two ways the CPU reaches it: the fast
// path of cpu-exec.c and the table-driven path of memory.c.

module Board {
  import opened Words
  import opened Outcomes
  import opened AddressMap
  import opened Ram
  import opened Uart
  import opened Emaclite
  import opened Video

  type DdrBytes = s: seq<byte> | |s| == AddressMap.DDR_SIZE witness seq(AddressMap.DDR_SIZE, _ => 0)
  type BramBytes = s: seq<byte> | |s| == AddressMap.BRAM_SIZE witness seq(AddressMap.BRAM_SIZE, _ => 0)
  type VmemBytes = s: seq<byte> | |s| == VMEM_SIZE witness seq(VMEM_SIZE, _ => 0)

  datatype NemuState = NemuStop | NemuRunning | NemuEnd

  datatype BoardState = BoardState(
    ddr: DdrBytes, ddrMappedSize: u32,
    bram: BramBytes, bramMapped: bool, bramMappedSize: u32,
    uart: UartState, mac: MacState, vmem: VmemBytes, nemu: NemuState)

  /** The state at program start. */
  function BoardInit(): BoardState {
    BoardState(Zeros(AddressMap.DDR_SIZE), 0, Zeros(AddressMap.BRAM_SIZE), false, 0, UartInit(), MacInit(),
               Zeros(VMEM_SIZE), NemuStop)
  }

  /** Bytes that follow a buffer in host memory; MaskedReadIsHandlerRead shows they do not matter. */
  const SLACK: seq<byte> := [0, 0, 0]

  /** The bounds assertion of ddr.c, bram.c and video.c. */
  predicate InBounds(off: nat, len: alen, size: nat) {
    off < size && off + len <= size
  }

  function FromUart(b: BoardState, r: Option<(UartState, u32)>): Outcome<(BoardState, u32)> {
    if r.None? then Dies(CpuAbort) else Ok((b.(uart := r.value.0), r.value.1))
  }

  /** The read column of the table. */
  function DeviceRead(b: BoardState, dev: Device, off: nat, len: alen): Outcome<(BoardState, u32)> {
    match dev
    case BadP => Ok((b, 0))
    case Ddr =>
      if InBounds(off, len, AddressMap.DDR_SIZE) then Ok((b, ReadMaskedWord(b.ddr, off, len, SLACK))) else Dies(CpuAbort)
    case Bram =>
      if InBounds(off, len, AddressMap.BRAM_SIZE) then Ok((b, ReadMaskedWord(b.bram, off, len, SLACK))) else Dies(CpuAbort)
    case Gpio => Dies(CpuAbort)
    case Serial => FromUart(b, SerialRead(b.uart, off))
    case Mac =>
      var v :- MacRead(b.mac, off, len);
      Ok((b, v))
    case Vga =>
      if InBounds(off, len, VMEM_SIZE) then Ok((b, ReadMaskedWord(b.vmem, off, len, SLACK))) else Dies(CpuAbort)
  }

  /** gpio_write: the guest's way to stop the emulator. */
  function GpioWrite(b: BoardState, off: nat, len: alen, batch: bool): Outcome<BoardState> {
    if off != 0 || len != 1 then Dies(CpuAbort)
    else if batch then Dies(Exited)
    else Ok(b.(nemu := NemuEnd))
  }

  /** The write column of the table. */
  function DeviceWrite(b: BoardState, dev: Device, off: nat, len: alen, data: u32, batch: bool): Outcome<BoardState> {
    match dev
    case BadP => Ok(b)
    case Ddr =>
      if InBounds(off, len, AddressMap.DDR_SIZE) then Ok(b.(ddr := Splice(b.ddr, off, LeBytes(data, len)))) else Dies(CpuAbort)
    case Bram =>
      if InBounds(off, len, AddressMap.BRAM_SIZE) then Ok(b.(bram := Splice(b.bram, off, LeBytes(data, len)))) else Dies(CpuAbort)
    case Gpio => GpioWrite(b, off, len, batch)
    case Serial =>
      var r := SerialWrite(b.uart, off, data);
      if r.None? then Dies(CpuAbort) else Ok(b.(uart := r.value))
    case Mac =>
      var m :- MacWrite(b.mac, off, len, data);
      Ok(b.(mac := m))
    case Vga =>
      if InBounds(off, len, VMEM_SIZE) then Ok(b.(vmem := Splice(b.vmem, off, LeBytes(data, len)))) else Dies(CpuAbort)
  }

  /** vaddr_read */
  function VaddrRead(b: BoardState, addr: u32, len: alen): Outcome<(BoardState, u32)> {
    var pa := ProtAddr(addr);
    match Lookup(MMAP, pa)
    case None => Dies(CpuAbort)
    case Some(r) => DeviceRead(b, r.dev, pa - r.start, len)
  }

  /** vaddr_write */
  function VaddrWrite(b: BoardState, addr: u32, len: alen, data: u32, batch: bool): Outcome<BoardState> {
    var pa := ProtAddr(addr);
    match Lookup(MMAP, pa)
    case None => Dies(CpuAbort)
    case Some(r) => DeviceWrite(b, r.dev, pa - r.start, len, data, batch)
  }

  /** Fast: load_mem and store_mem as written.  Slow: every access goes through the table. */
  datatype Mode = Fast | Slow

  /** load_mem.  The fast path checks no bounds: reading past the end of a buffer is undefined. */
  function LoadMem(mode: Mode, b: BoardState, addr: u32, len: alen): Outcome<(BoardState, u32)> {
    var pa := ProtAddr(addr);
    if addr < 0x1000 then Dies(CpuAbort)
    else if mode == Fast && InDdr(pa) then
      var off := pa - DDR_BASE;
      if off + len <= AddressMap.DDR_SIZE then Ok((b, ReadHandler(b.ddr, off, len))) else Dies(Undefined)
    else if mode == Fast && InBram(pa) then
      var off := pa - BRAM_BASE;
      if off + len <= AddressMap.BRAM_SIZE then Ok((b, ReadHandler(b.bram, off, len))) else Dies(Undefined)
    else VaddrRead(b, addr, len)
  }

  /** store_mem.  Only the DDR has a fast path. */
  function StoreMem(mode: Mode, b: BoardState, addr: u32, len: alen, data: u32, batch: bool): Outcome<BoardState> {
    var pa := ProtAddr(addr);
    if addr < 0x1000 then Dies(CpuAbort)
    else if mode == Fast && InDdr(pa) then
      var off := pa - DDR_BASE;
      if off + len <= AddressMap.DDR_SIZE then Ok(b.(ddr := WriteHandlerBytes(b.ddr, off, len, data))) else Dies(Undefined)
    else VaddrWrite(b, addr, len, data, batch)
  }

  /** The access runs past the end of the buffer it starts in. */
  predicate Overruns(pa: u32, len: alen) {
    || (InDdr(pa) && pa + len > DDR_BASE + AddressMap.DDR_SIZE)
    || (InBram(pa) && pa + len > BRAM_BASE + AddressMap.BRAM_SIZE)
  }

  /** The table-driven read of RAM is the byte-wise read, bounds-checked. */
  lemma DdrRead(b: BoardState, off: nat, len: alen)
    ensures DeviceRead(b, Ddr, off, len) ==
            if off + len <= AddressMap.DDR_SIZE then Ok((b, ReadHandler(b.ddr, off, len))) else Dies(CpuAbort)
  {
    if off + len <= AddressMap.DDR_SIZE {
      MaskedReadIsHandlerRead(b.ddr, off, len, SLACK);
    }
  }

  lemma BramRead(b: BoardState, off: nat, len: alen)
    ensures DeviceRead(b, Bram, off, len) ==
            if off + len <= AddressMap.BRAM_SIZE then Ok((b, ReadHandler(b.bram, off, len))) else Dies(CpuAbort)
  {
    if off + len <= AddressMap.BRAM_SIZE {
      MaskedReadIsHandlerRead(b.bram, off, len, SLACK);
    }
  }

  lemma VaddrReadRam(b: BoardState, addr: u32, len: alen)
    ensures var pa := ProtAddr(addr);
            && (InDdr(pa) ==> VaddrRead(b, addr, len) == DeviceRead(b, Ddr, pa - DDR_BASE, len))
            && (InBram(pa) ==> VaddrRead(b, addr, len) == DeviceRead(b, Bram, pa - BRAM_BASE, len))
  {
    hide DeviceRead;
    hide LookupFrom;
    MmapCases(ProtAddr(addr));
  }

  /** What the two paths make of a load that starts in the DDR or the BRAM. */
  lemma LoadDdr(b: BoardState, addr: u32, len: alen)
    requires addr >= 0x1000 && InDdr(ProtAddr(addr))
    ensures var pa := ProtAddr(addr);
            if Overruns(pa, len) then
              LoadMem(Fast, b, addr, len) == Dies(Undefined) && LoadMem(Slow, b, addr, len) == Dies(CpuAbort)
            else
              forall mode: Mode :: LoadMem(mode, b, addr, len) == Ok((b, ReadHandler(b.ddr, pa - DDR_BASE, len)))
  {
    hide VaddrRead;
    hide DeviceRead;
    hide ReadHandler;
    VaddrReadRam(b, addr, len);
    DdrRead(b, ProtAddr(addr) - DDR_BASE, len);
  }

  lemma LoadBram(b: BoardState, addr: u32, len: alen)
    requires addr >= 0x1000 && InBram(ProtAddr(addr))
    ensures var pa := ProtAddr(addr);
            if Overruns(pa, len) then
              LoadMem(Fast, b, addr, len) == Dies(Undefined) && LoadMem(Slow, b, addr, len) == Dies(CpuAbort)
            else
              forall mode: Mode :: LoadMem(mode, b, addr, len) == Ok((b, ReadHandler(b.bram, pa - BRAM_BASE, len)))
  {
    hide VaddrRead;
    hide DeviceRead;
    hide ReadHandler;
    VaddrReadRam(b, addr, len);
    BramRead(b, ProtAddr(addr) - BRAM_BASE, len);
  }

  /** The two load paths agree exactly when the access stays inside the buffer it starts in. */
  lemma LoadPathsAgreeIff(b: BoardState, addr: u32, len: alen)
    requires addr >= 0x1000
    ensures LoadMem(Fast, b, addr, len) == LoadMem(Slow, b, addr, len) <==> !Overruns(ProtAddr(addr), len)
  {
    hide ReadHandler;
    hide VaddrRead;
    if InDdr(ProtAddr(addr)) {
      LoadDdr(b, addr, len);
    } else if InBram(ProtAddr(addr)) {
      LoadBram(b, addr, len);
    }
  }

  /** The two store paths agree exactly when the access stays inside the DDR or starts outside it. */
  lemma StorePathsAgreeIff(b: BoardState, addr: u32, len: alen, data: u32, batch: bool)
    requires addr >= 0x1000
    ensures StoreMem(Fast, b, addr, len, data, batch) == StoreMem(Slow, b, addr, len, data, batch)
            <==> !(InDdr(ProtAddr(addr)) && Overruns(ProtAddr(addr), len))
  {
    var pa := ProtAddr(addr);
    MmapCases(pa);
    if InDdr(pa) && !Overruns(pa, len) {
      HandlerWriteIsSplice(b.ddr, pa - DDR_BASE, len, data);
    }
  }

  /** An aligned access cannot overrun, because both sizes and bases are multiples of four. */
  lemma AlignedStaysInside(addr: u32, len: alen)
    requires len != 3 && addr % len == 0
    ensures !Overruns(ProtAddr(addr), len)
  {
    var pa := ProtAddr(addr);
    if IsUnmapped(addr) {
      ModOfMod(addr, 4, 0x800_0000);
      ModOfMod(addr, 2, 0x1000_0000);
    }
    assert pa % len == 0;
  }

  lemma LoadPathsAgree(b: BoardState, addr: u32, len: alen)
    requires len != 3 && addr % len == 0
    ensures LoadMem(Fast, b, addr, len) == LoadMem(Slow, b, addr, len)
  {
    AlignedStaysInside(addr, len);
    if addr >= 0x1000 { LoadPathsAgreeIff(b, addr, len); }
  }

  lemma StorePathsAgree(b: BoardState, addr: u32, len: alen, data: u32, batch: bool)
    requires len != 3 && addr % len == 0
    ensures StoreMem(Fast, b, addr, len, data, batch) == StoreMem(Slow, b, addr, len, data, batch)
  {
    AlignedStaysInside(addr, len);
    if addr >= 0x1000 { StorePathsAgreeIff(b, addr, len, data, batch); }
  }

  /** Every access that the table routes to the framebuffer stays inside it. */
  lemma VgaNeverAborts(b: BoardState, addr: u32, len: alen, data: u32, batch: bool)
    requires VGA_BASE <= ProtAddr(addr) < VGA_BASE + VGA_SIZE
    ensures VaddrRead(b, addr, len).Ok? && VaddrWrite(b, addr, len, data, batch).Ok?
  {
    var pa := ProtAddr(addr);
    assert MMAP[6].Contains(pa) && MMAP[6] in MMAP;
    MmapCases(pa);
  }
}
