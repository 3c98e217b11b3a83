// Booting: the loader and the boot stub in place, and what the first instruction is.

module Boot {
  import opened Words
  import opened Outcomes
  import opened AddressMap
  import opened Ram
  import opened Runs
  import opened Loader
  import opened Platform
  import opened Emulator
  import opened TraceRing
  import B = Board
  import Spec = Machine

  /** paddr_map */
  method MapSegmentInPlace(board: Hardware, s: Segment) returns (res: Outcome<()>)
    requires board.Valid()
    modifies board`ddrMappedSize, board`bramMapped, board`bramMappedSize
    ensures res.Ok? ==> MapSegment(old(board.View()), s) == Ok(board.View())
    ensures res.Dies? ==> MapSegment(old(board.View()), s) == Dies(res.why)
  {
    if !IsUnmapped(s.vaddr) {
      return Dies(CpuAbort);
    }
    var pa := IoMap(s.vaddr);
    var idx := FindRegion(MMAP, pa);
    if idx == -1 {
      return Dies(CpuAbort);
    }
    var off := pa - MMAP[idx].start;
    var end := Wrap(off + s.memsz);
    if MMAP[idx].dev == Ddr && off < DDR_SIZE && end <= DDR_SIZE {
      if end >= board.ddrMappedSize {
        board.ddrMappedSize := end;
      }
    } else if MMAP[idx].dev == Bram && off < BRAM_SIZE && end <= BRAM_SIZE {
      if off == 0 {
        board.bramMapped := true;
      }
      if end >= board.bramMappedSize {
        board.bramMappedSize := end;
      }
    } else {
      return Dies(CpuAbort);
    }
    return Ok(());
  }

  /** memcpy and memset of one segment. */
  method FillInPlace(mem: array<byte>, off: nat, buf: seq<byte>, s: Segment) returns (res: Outcome<()>)
    modifies mem
    ensures res.Ok? ==> Fill(old(mem[..]), off, buf, s) == Ok(mem[..])
    ensures res.Dies? ==> Fill(old(mem[..]), off, buf, s) == Dies(res.why)
  {
    hide Splice;
    hide Zeros;
    if s.filesz > 0 && (s.offset + s.filesz > |buf| || off + s.filesz > mem.Length) {
      return Dies(Undefined);
    }
    var n := Wrap(s.memsz - s.filesz);
    if off + s.filesz + n > mem.Length {
      return Dies(Undefined);
    }
    var file := if s.filesz == 0 then [] else buf[s.offset..s.offset + s.filesz];
    MemCpy(mem, off, file);
    MemZero(mem, off + s.filesz, n);
    return Ok(());
  }

  method LoadSegmentInPlace(board: Hardware, buf: seq<byte>, s: Segment) returns (res: Outcome<()>)
    requires board.Valid()
    modifies board.Repr
    ensures res.Ok? ==> LoadSegment(old(board.View()), buf, s) == Ok(board.View())
    ensures res.Dies? ==> LoadSegment(old(board.View()), buf, s) == Dies(res.why)
  {
    hide MapSegment;
    hide Fill;
    res := MapSegmentInPlace(board, s);
    if res.Dies? {
      return;
    }
    var pa := IoMap(s.vaddr);
    if InDdr(pa) {
      res := FillInPlace(board.ddr, pa - DDR_BASE, buf, s);
    } else if InBram(pa) {
      res := FillInPlace(board.bram, pa - BRAM_BASE, buf, s);
    } else {
      return Dies(CpuAbort);
    }
  }

  /** load_elf */
  method LoadElfInPlace(board: Hardware, buf: seq<byte>) returns (res: Outcome<u32>)
    requires board.Valid()
    modifies board.Repr
    ensures res.Ok? ==> LoadElf(old(board.View()), buf) == Ok((board.View(), res.value))
    ensures res.Dies? ==> LoadElf(old(board.View()), buf) == Dies(res.why)
  {
    hide Hardware.View;
    hide LoadSegment;
    if |buf| < 28 {
      return Dies(Undefined);
    }
    var entry := U32At(buf, 24);
    if U32At(buf, 0) != ELF_MAGIC {
      return Dies(CpuAbort);
    }
    if |buf| < 46 {
      return Dies(Undefined);
    }
    var i := 0;
    while i < Phnum(buf)
      invariant 0 <= i <= Phnum(buf)
      invariant LoadFrom(old(board.View()), buf, 0) == LoadFrom(board.View(), buf, i)
    {
      if !Readable(buf, i) {
        return Dies(Undefined);
      }
      if IsLoad(buf, i) {
        var r := LoadSegmentInPlace(board, buf, Seg(buf, i));
        if r.Dies? {
          return Dies(r.why);
        }
      }
      i := i + 1;
    }
    return Ok(entry);
  }

  /** bram_init */
  method BramInitInPlace(board: Hardware, entry: u32)
    requires board.Valid()
    modifies board.bram
    ensures board.View() == BramInit(old(board.View()), entry)
  {
    if !board.bramMapped {
      MemCpy(board.bram, 0, StubBytes(entry));
    }
  }

  /** The state in which cpu_exec starts, after init_monitor. */
  function BootMachine(b: B.BoardState): Spec.MachineState {
    Spec.MachineState(Spec.CpuState(seq(32, _ => 0), seq(4096, _ => 0), 0, 0, Spec.CPU_INIT_PC), b, [], 0)
  }

  /** load_image */
  method LoadImageInPlace(board: Hardware, file: seq<byte>, vaddr: u32) returns (res: Outcome<()>)
    requires board.Valid()
    modifies board.Repr
    ensures res.Ok? ==> LoadImage(old(board.View()), file, vaddr) == Ok(board.View())
    ensures res.Dies? ==> LoadImage(old(board.View()), file, vaddr) == Dies(res.why)
  {
    hide MapSegment;
    res := MapSegmentInPlace(board, Segment(0, vaddr, 0, Wrap(|file|)));
    if res.Dies? {
      return;
    }
    var pa := IoMap(vaddr);
    if InDdr(pa) {
      if pa - DDR_BASE + |file| > DDR_SIZE { return Dies(Undefined); }
      MemCpy(board.ddr, pa - DDR_BASE, file);
    } else if InBram(pa) {
      if pa - BRAM_BASE + |file| > BRAM_SIZE { return Dies(Undefined); }
      MemCpy(board.bram, pa - BRAM_BASE, file);
    } else {
      return Dies(CpuAbort);
    }
  }

  /** The program: an ELF file (-e), or a raw image (-i). */
  datatype Program = ElfFile(buf: seq<byte>) | ImageFile(file: seq<byte>)

  // Where -u puts a kernel image.
  const UIMAGE_BASE: u32 := 0x8200_0000

  /** The kernel images, loaded in the order of the options. */
  function LoadKernels(b: B.BoardState, kernels: seq<seq<byte>>): Outcome<B.BoardState>
    decreases |kernels|
  {
    if kernels == [] then Ok(b)
    else
      var b1 :- LoadImage(b, kernels[0], UIMAGE_BASE);
      LoadKernels(b1, kernels[1..])
  }

  /** The program; a raw image leaves elf_entry at its initial value. */
  function LoadProgram(b: B.BoardState, prog: Program): Outcome<(B.BoardState, u32)> {
    match prog
    case ElfFile(buf) => LoadElf(b, buf)
    case ImageFile(file) =>
      var b1 :- LoadImage(b, file, Spec.CPU_INIT_PC);
      Ok((b1, Spec.CPU_INIT_PC))
  }

  /** init_monitor: the machine in which cpu_exec starts. */
  function InitMonitor(kernels: seq<seq<byte>>, prog: Program): Outcome<Spec.MachineState> {
    var b :- LoadKernels(B.BoardInit(), kernels);
    var r :- LoadProgram(b, prog);
    Ok(BootMachine(BramInit(r.0, r.1)))
  }

  method LoadProgramInPlace(board: Hardware, kernels: seq<seq<byte>>, prog: Program) returns (res: Outcome<u32>)
    requires board.Valid() && board.View() == B.BoardInit()
    modifies board.Repr
    ensures var k := LoadKernels(B.BoardInit(), kernels);
            match k
            case Dies(why) => res == Dies(why)
            case Ok(b) =>
              if res.Ok? then LoadProgram(b, prog) == Ok((board.View(), res.value))
              else LoadProgram(b, prog) == Dies(res.why)
  {
    hide Hardware.View;
    hide LoadElf;
    hide LoadImage;
    hide B.BoardInit;
    var i := 0;
    while i < |kernels|
      invariant 0 <= i <= |kernels|
      invariant LoadKernels(B.BoardInit(), kernels) == LoadKernels(board.View(), kernels[i..])
    {
      assert kernels[i..][0] == kernels[i] && kernels[i..][1..] == kernels[i + 1..];
      var k := LoadImageInPlace(board, kernels[i], UIMAGE_BASE);
      if k.Dies? {
        return Dies(k.why);
      }
      i := i + 1;
    }
    match prog {
      case ElfFile(buf) =>
        res := LoadElfInPlace(board, buf);
      case ImageFile(file) =>
        var r := LoadImageInPlace(board, file, Spec.CPU_INIT_PC);
        res := if r.Ok? then Ok(Spec.CPU_INIT_PC) else Dies(r.why);
    }
  }

  /** init_monitor: load the files, initialise the BRAM, initialise the CPU. */
  method InitMonitorInPlace(kernels: seq<seq<byte>>, prog: Program) returns (res: Outcome<Nemu>)
    ensures res.Ok? ==>
              && res.value.Valid()
              && InitMonitor(kernels, prog) == Ok(res.value.View())
    ensures res.Ok? ==> fresh(res.value) && fresh(res.value.cpu.Repr) && fresh(res.value.board.Repr) && fresh(res.value.iq.Repr)
    ensures res.Dies? ==> InitMonitor(kernels, prog) == Dies(res.why)
  {
    hide LoadKernels;
    hide LoadProgram;
    hide BramInit;
    hide Hardware.View;
    hide B.BoardInit;
    var board := new Hardware();
    var entry := LoadProgramInPlace(board, kernels, prog);
    if entry.Dies? {
      return Dies(entry.why);
    }
    BramInitInPlace(board, entry.value);
    var nemu := new Nemu(board);
    return Ok(nemu);
  }

  /** main: pass init_mmio, boot, run.  The outcome and the lines that print_instr_queue then prints are
      those of the run that sends every access through the table. */
  method Emulate(kernels: seq<seq<byte>>, prog: Program, env: Spec.Env) returns (res: Outcome<()>, lines: seq<Entry>)
    ensures var boot := InitMonitor(kernels, prog);
            match boot
            case Dies(why) => res == Dies(why)
            case Ok(start) =>
              match Spec.CpuExec(B.Slow, env, start, 0xFFFF_FFFF_FFFF_FFFF)
              case Live(m) => res.Ok? && lines == Window(m.trace)
              case Dead(trace, why) => res == Dies(why) && lines == Window(trace)
  {
    hide InitMonitor;
    hide Hardware.View;
    hide Cpu.View;
    hide Spec.CpuExec;
    hide Window;
    MmapApart();
    var mapped := InitMmio(MMAP);
    assert mapped;
    var nemu := InitMonitorInPlace(kernels, prog);
    if nemu.Dies? {
      return Dies(nemu.why), [];
    }
    FastPathRefinesTable(env, nemu.value.View(), 0xFFFF_FFFF_FFFF_FFFF);
    res := nemu.value.CpuExec(0xFFFF_FFFF_FFFF_FFFF, env);
    lines := nemu.value.iq.PrintQueue();
  }

  /** A raw image runs from its own first word: the fetch at CPU_INIT_PC returns its first four bytes. */
  lemma ImageFetch(mode: B.Mode, b: B.BoardState, file: seq<byte>)
    requires LoadImage(b, file, Spec.CPU_INIT_PC).Ok? && |file| >= 4
    ensures var b1 := BramInit(LoadImage(b, file, Spec.CPU_INIT_PC).value, Spec.CPU_INIT_PC);
            B.LoadMem(mode, b1, Spec.CPU_INIT_PC, 4) == Ok((b1, Le(file[..4])))
  {
    hide B.LoadMem;
    hide ReadHandler;
    var b1 := LoadImage(b, file, Spec.CPU_INIT_PC).value;
    assert ProtAddr(Spec.CPU_INIT_PC) == BRAM_BASE;
    MmapCases(BRAM_BASE);
    B.LoadBram(b1, Spec.CPU_INIT_PC, 4);
    HandlerReadIsLe(b1.bram, 0, 4);
    assert b1.bram[0..4] == file[..4];
  }

  /** The first word of the stub, as fetched from CPU_INIT_PC. */
  lemma StubFetch(mode: B.Mode, b: B.BoardState, entry: u32)
    requires !b.bramMapped
    ensures var b1 := BramInit(b, entry);
            B.LoadMem(mode, b1, Spec.CPU_INIT_PC, 4) == Ok((b1, 0x3c08_0000 + entry / 0x1_0000))
  {
    hide B.LoadMem;
    hide ReadHandler;
    hide BramInit;
    hide LeBytes;
    var b1, w := BramInit(b, entry), 0x3c08_0000 + entry / 0x1_0000;
    StubAtStart(b, entry);
    assert ProtAddr(Spec.CPU_INIT_PC) == BRAM_BASE;
    B.LoadBram(b1, Spec.CPU_INIT_PC, 4);
    HandlerReadIsLe(b1.bram, 0, 4);
    LeOfBytes(w);
  }

  lemma StubAtStart(b: B.BoardState, entry: u32)
    requires !b.bramMapped
    ensures BramInit(b, entry).bram[0..4] == LeBytes(0x3c08_0000 + entry / 0x1_0000, 4)
  {
    hide LeBytes;
    hide Splice;
    var w := 0x3c08_0000 + entry / 0x1_0000;
    var s := StubBytes(entry);
    assert s[0..4] == LeBytes(w, 4);
    assert Splice(b.bram, 0, s)[0..4] == s[0..4];
  }

  /** The k-th word of the stub: lui and addiu of the two halves of the entry point, jr, and nop, in MIPS
      encoding. */
  function StubWord(entry: u32, k: nat): u32 {
    if k == 0 then 0x3c08_0000 + entry / 0x1_0000
    else if k == 1 then 0x2508_0000 + entry % 0x1_0000
    else if k == 2 then 0x0100_0008
    else 0
  }

  /** The four words of the stub, as loaded from CPU_INIT_PC on. */
  lemma StubWords(mode: B.Mode, b: B.BoardState, entry: u32, k: nat)
    requires !b.bramMapped && k < 4
    ensures var b1 := BramInit(b, entry);
            B.LoadMem(mode, b1, Spec.CPU_INIT_PC + 4 * k, 4) == Ok((b1, StubWord(entry, k)))
  {
    hide B.LoadMem;
    hide ReadHandler;
    hide BramInit;
    hide LeBytes;
    hide StubWord;
    var b1 := BramInit(b, entry);
    StubSlices(b, entry);
    assert ProtAddr(Spec.CPU_INIT_PC + 4 * k) == BRAM_BASE + 4 * k;
    B.LoadBram(b1, Spec.CPU_INIT_PC + 4 * k, 4);
    HandlerReadIsLe(b1.bram, 4 * k, 4);
    LeOfBytes(StubWord(entry, k));
  }

  lemma StubSlices(b: B.BoardState, entry: u32)
    requires !b.bramMapped
    ensures forall k: nat | k < 4 :: BramInit(b, entry).bram[4 * k..4 * k + 4] == LeBytes(StubWord(entry, k), 4)
  {
    hide LeBytes;
    hide Splice;
    var s := StubBytes(entry);
    var v := BramInit(b, entry).bram;
    forall k: nat | k < 4 ensures v[4 * k..4 * k + 4] == LeBytes(StubWord(entry, k), 4) {
      assert v[4 * k..4 * k + 4] == s[4 * k..4 * k + 4];
      if k == 0 { assert s[0..4] == LeBytes(StubWord(entry, 0), 4); }
      else if k == 1 { assert s[4..8] == LeBytes(StubWord(entry, 1), 4); }
      else if k == 2 { assert s[8..12] == LeBytes(StubWord(entry, 2), 4); }
      else { assert s[12..16] == LeBytes(StubWord(entry, 3), 4); }
    }
  }

  lemma ExecuteOpcodeAssert(mode: B.Mode, batch: bool, c: Spec.CpuState, b: B.BoardState, w: u32)
    ensures Spec.Execute(mode, batch, c, b, w) == Dies(OpcodeAssert) <==> w % 4 != 3
  {
    var op := Decoder.Decode(w);
    hide B.LoadMem;
    LoadDeath(mode, b, Spec.LoadAddr(c, w), Spec.Width(op));
    StoreNoOpcodeAssert(mode, batch, c, b, w);
  }

  lemma StoreNoOpcodeAssert(mode: B.Mode, batch: bool, c: Spec.CpuState, b: B.BoardState, w: u32)
    ensures Spec.ExecStore(mode, batch, c, b, Decoder.Decode(w), w) != Dies(OpcodeAssert)
  {
  }

  /** Booting an ELF file that maps nothing at the start of the BRAM runs into the stub, whose first word
      is a MIPS instruction: the opcode assertion fails at once exactly when bits 16 and 17 of the entry
      point are not both set. */
  lemma BootWithoutFirmware(mode: B.Mode, batch: bool, buf: seq<byte>)
    requires LoadElf(B.BoardInit(), buf).Ok? && !MapsBramStart(buf, 0)
    ensures var (b, entry) := LoadElf(B.BoardInit(), buf).value;
            var r := Spec.Step(mode, batch, BootMachine(BramInit(b, entry)));
            r == Spec.Dead([TraceRing.Entry(Spec.CPU_INIT_PC, Some(0x3c08_0000 + entry / 0x1_0000))], OpcodeAssert)
            <==> entry / 0x1_0000 % 4 != 3
  {
    hide LoadFrom;
    hide B.LoadMem;
    hide Spec.Execute;
    hide B.BoardInit;
    hide LoadElf;
    var (b, entry) := LoadElf(B.BoardInit(), buf).value;
    LoaderFrame(B.BoardInit(), buf);
    assert !B.BoardInit().bramMapped by { InitUnmapped(); }
    StubFetch(mode, b, entry);
    var m := BootMachine(BramInit(b, entry));
    var w := 0x3c08_0000 + entry / 0x1_0000;
    ExecuteOpcodeAssert(mode, batch, m.cpu, m.board, w);
    assert w % 4 == entry / 0x1_0000 % 4;
  }

  lemma InitUnmapped()
    ensures !B.BoardInit().bramMapped
  {
  }
}
