# A verified model of the emulator

This project models the RISC-V/MIPS-board emulator as a state machine and proves properties of it in Dafny:
the instruction decoder and every handler, the run loop `cpu_exec`, guest memory with its fast and
table-driven paths, the UART, the Ethernet MAC, the framebuffer, the trace ring, the ELF loader and the boot
order.  `dafny verify dfyconfig.toml` checks everything.

## How the model is organised

State that the C code updates in place is modelled twice.  A class (`Emulator.Cpu`, `Emulator.Nemu`,
`Platform.Hardware`, `Uart.SerialPort`, `Emaclite.EthernetMac`, `TraceRing.InstrQueue`) has the C fields and
arrays and the C statements; each of its methods ensures that the state it leaves is the one a function of
`Machine`, `Board`, `Uart`, `Emaclite` or `TraceRing` gives.  The lemmas are about those functions, so they
hold of the classes.  `Emulator.Nemu.CpuExec` is where everything meets: the in-place run loop over the
in-place board computes `Machine.CpuExec`, and `Runs` proves what whole runs of `Machine.CpuExec` keep.
`Boot.Emulate` joins the boot order, the in-place run, the refinement of the table-driven paths and the
instruction queue in one statement.  `DeviceRuns.BootedDevices` carries what is proved of the MAC and of the UART's
registers alone into every run of a booted machine; `InterruptedRuns.LosslessRuns` carries the UART's lossless
reception into every run of a booted machine whose handler also runs inside instructions, between the statements of
serial_read.

| file | contents |
|---|---|
| `words.dfy`, `outcomes.dfy` | machine words as bounded integers, C operators on them; the ways the process can end |
| `formats.dfy`, `decoder.dfy` | the bit fields, the dispatch tables, an assembler |
| `alu.dfy`, `alu_bits.dfy`, `semantics.dfy` | what handlers compute, and what instructions mean |
| `handler_laws.dfy` | executed loads, stores, branches and CSR instructions by bits, bytes and other instructions |
| `departures.dfy` | where the code and the ISA agree |
| `address_map.dfy`, `ram.dfy`, `board.dfy`, `memory_algebra.dfy` | the region table, byte buffers, the two access paths, loads after stores |
| `region_laws.dfy`, `screen.dfy` | accesses outside memory; what the window shows of the guest's stores |
| `uart.dfy`, `uart_interleaving.dfy`, `uart_keys.dfy` | receive ring, interleaved producer, key debouncing |
| `emaclite.dfy`, `mdio.dfy`, `video.dfy`, `trace_ring.dfy` | the other devices and the instruction queue |
| `machine.dfy`, `runs.dfy` | handlers and run loop as functions; properties of whole runs |
| `platform.dfy`, `emulator.dfy` | the board, the CPU and the run loop in place |
| `loader.dfy`, `elf_layout.dfy`, `boot.dfy` | `load_elf`, an encoder of ELF-32 files, `load_image`, `bram_init`, and the boot order |
| `device_runs.dfy` | the MAC and the UART over whole runs |
| `interrupted_runs.dfy` | whole runs with timer-handler runs inside instructions |

## Reading the model

* Words are integers with their C range; wrap-around, sign extension and truncation are written out.  A C
  bitwise-or of fields that occupy different bits is a sum, a mask test is arithmetic on the masked bits;
  `AddressMap.IoMapMask` and `Ram.MaskedReadIsHandlerRead` prove the masks that compute a value.
* Abort, assertion failure, `exit` and undefined behaviour of C are outcomes (`Outcomes.Death`).  `Undefined`
  covers division by zero, `INT_MIN / -1`, a MAC programming length above six, and copies or accesses past
  the end of a buffer.  A dead machine keeps only its trace; `Runs.LastLivePrefix` describes the state in which its
  last iteration began.
* Signed left shifts (`BRANCH_SIMM << 1`, `simm_31_12 << 12`, `p[3] << 24`), which C leaves undefined when they
  overflow, have the meaning compilers give them.  When no event is pending, `device_update` looks at an
  uninitialised `event.type` (src/device.c:24-26); the model takes it to be neither a key event nor SDL_QUIT.
* The DEBUG build is modelled: loads and stores below 0x1000 abort and the instruction queue is kept.
* The host is little-endian, as the bit fields and the word accesses of the source require.
* Runs of the timer handler are a schedule: which polls happen before which instruction slot (`Machine.Env`).
  `InterruptedRuns.Interrupts` adds those between the fetch and the handler of an instruction and between the
  statements of `serial_read`, for fetches and loads.  The handler touches only the receive ring and the key table,
  and only `serial_read` looks at the ring, so a handler run at any other point inside an instruction has the effect of one
  of these.
* Header offsets of `load_elf` are C `int` products: a file in which `i * e_phentsize` reaches 2^31 is undefined.
* `hi` and `lo` are never written by a handler.
* RAM means the DDR, the BRAM and video memory (`Runs.InRam`, `Runs.RamByte`).

## Departures of the code from its comments or from the RISC-V Unprivileged ISA

The model follows the code.  These are the departures it knows of, with the theorems that say exactly when code and
ISA agree:

* `bne` tests equality and branch offsets are doubled and counted from the next instruction: a branch goes where
  the ISA sends it exactly when it is not taken or its offset is -4, and a `bne` exactly when its offset is 0 on
  equal registers and 4 on different ones (`Departures.BranchTarget`, `Departures.BranchAgrees`,
  `Semantics.BneIsBeq`).
* `jal` uses the U immediate counted from the next instruction, which is never the ISA's target for the same word
  (`Departures.JalTarget`, `Departures.JalNeverAgrees`); `jalr` ignores its immediate and continues four past its
  register (`Departures.JalrTarget`, `Departures.JalrAgrees`).  They answer to opcodes 0x77 and 0x6f
  (`Decoder.DecodePartition`).
* `jalr`, `csrrs`, `csrrc` and `csrrw` write rd before they read rs1 (`Semantics.ReadOrder`).
* The guards of the CSR handlers test other things than the ISA's: `csrrw` and `csrrwi` write nothing while rd holds
  0, `csrrsi` and `csrrci` with a zero immediate do not write rd, and `csrrs` and `csrrc` with rs1 = x0 write the
  CSR (`Departures.CsrStandard` has the exact condition of each).
* The immediate handlers are reached only when the func7 position is 0 or 1, so an immediate outside 0 to 31 is
  invalid (`Semantics.ImmediateReach`, `Semantics.ReachableImmediate`), and `srai` answers to func7 1 instead of 32
  (`Semantics.ShiftReach`).
* Division by zero and `INT_MIN / -1`, which the ISA defines, are undefined (`Departures.DivisionStandard`).
* A negative store offset is 8192 too large (`Formats.StoreImmStandard`).
* `gpr[0]` is ordinary storage: `addi x0, x0, 1` changes it, and it keeps its value over a step, and 0 over a run,
  exactly when no instruction writes another value back to rd = x0 (`Departures.RegisterZeroExample`,
  `Departures.RegisterZeroStep`, `Departures.RegisterZeroRun`).
* The boot stub is MIPS code (`Boot.BootWithoutFirmware`).

## Model

| member | source | states |
|---|---|---|
| Decoder.DecodePartition | src/cpu/exec-handlers.h:17-109 | the tables reach a handler on exactly the words of its bit pattern, and `inv` on exactly the words ending in 11 that no pattern fits: the handler word sets are disjoint and cover |
| Decoder.DecodeRoundTrip | include/cpu/reg.h:16-113 | encoding any reachable instruction with its operands and decoding it through the tables returns that handler and those operands, with negative store offsets 8192 larger |
| Formats.WordFields | include/cpu/reg.h:18-25 | packing the six common fields and reading them back returns them, together with the 12-bit and 20-bit immediates they overlap |
| Formats.FieldsWord | include/cpu/reg.h:18-25 | the six common fields of a word determine it |
| Formats.BranchImmStandard | src/cpu/exec-handlers.h:343-347 | BRANCH_SIMM is exactly the B-immediate of section 2.3 of the RISC-V Unprivileged ISA |
| Formats.StoreImmStandard | src/cpu/exec-handlers.h:287-290 | STORE_SIMM is the S-immediate for non-negative offsets and exactly 8192 more for negative ones |
| Alu.MulhMulSigned | src/cpu/exec-handlers.h:171-180 | mulh joined with mul is the exact signed 64-bit product |
| Alu.MulhuMulUnsigned | src/cpu/exec-handlers.h:182-186 | mulhu joined with mul is the exact unsigned product |
| Alu.MulhsuMulMixed | src/cpu/exec-handlers.h:188-192 | mulhsu joined with mul is the exact signed-by-unsigned product |
| Alu.MixedProductExact | src/cpu/exec-handlers.h:189 | the uint64_t detour of the mixed product never leaves the int64_t range |
| Alu.MulhFromMulhu | src/cpu/exec-handlers.h:176-186 | mulh is mulhu less the two sign corrections, modulo 2^32 |
| Alu.DivisionPair | src/cpu/exec-handlers.h:195-213 | for defined operands, div and rem (divu and remu) satisfy n = q d + r with \|r\| < \|d\| and r zero or signed like n |
| AluBits.CarryAndBorrow | src/cpu/exec-handlers.h:121-154 | add plus 2^32 times the sltu of its sum is the exact sum; sub is the exact difference plus 2^32 times the sltu of its operands |
| AluBits.ImmediateForm | src/cpu/exec-handlers.h:233-276 | each of the nine immediate handlers computes what its register form computes |
| AluBits.AndBits | src/cpu/exec-handlers.h:131-134 | and acts on each bit separately |
| AluBits.OrBits | src/cpu/exec-handlers.h:136-139 | or acts on each bit separately |
| AluBits.XorBits | src/cpu/exec-handlers.h:141-144 | xor acts on each bit separately |
| Words.BitsDetermine | src/cpu/exec-handlers.h:131-144 | two words with the same bits are equal, so the bit-level statements fix the results |
| AluBits.ShiftBits | src/cpu/exec-handlers.h:156-164 | srl and sll move each bit by the low five bits of the count and fill with zeros |
| AluBits.ArithmeticShift | src/cpu/exec-handlers.h:166-169 | sra is signed division by the power of two, rounded toward minus infinity |
| AluBits.AddSubCompare | src/cpu/exec-handlers.h:121-154 | sub undoes add; slt and sltu are total and asymmetric, and slt is sltu with the sign bits flipped |
| AluBits.CompareTransitive | src/cpu/exec-handlers.h:146-154 | slt and sltu are transitive |
| Semantics.ExecuteIsMeaning | src/cpu/exec-handlers.h:73-430 | executing any word ending in 11 has the effect its decoded operands mean |
| Semantics.AssembledExecution | src/cpu/exec-handlers.h:73-430 | an assembled instruction, dispatched through the tables and executed, has its assembly-level meaning |
| Semantics.AssembledStep | src/cpu/cpu-exec.c:164-196 | a step that fetches an assembled instruction has its meaning, advances the pc by 4 and adds one complete trace entry |
| Semantics.BneIsBeq | src/cpu/exec-handlers.h:349-357 | an assembled bne executes exactly as the beq with the same operands |
| Semantics.ReadOrder | src/cpu/exec-handlers.h:216-423 | writing rd before reading rs1 matters in jalr, csrrs, csrrc and csrrw exactly when rd is rs1 and the written value changes the result |
| Semantics.ReachableImmediate | src/cpu/exec-handlers.h:90-96 | immediates that reach an arithmetic handler are the zero-extended five-bit field (plus 32 in srai's encoding), so the sign of simm_11_0 never matters |
| Semantics.ImmediateReach | src/cpu/exec-handlers.h:90-96 | addi, slti, sltiu, xori, ori and andi reach their handlers exactly for immediates 0 to 31; every other immediate is invalid |
| Semantics.ShiftReach | src/cpu/exec-handlers.h:90-96 | slli and srli answer to their standard encodings, srai only to func7 1; its standard encoding is invalid |
| HandlerLaws.LoadStep | src/cpu/exec-handlers.h:312-340 | an assembled lb, lh, lw, lbu or lhu leaves in rd the value of the one, two or four bytes at its address, lb and lh with the sign bit copied into every higher bit, and changes nothing else |
| HandlerLaws.LoadStepAfterStores | src/cpu/exec-handlers.h:312-340 | after any sequence of stores to memory those are the bytes last written |
| HandlerLaws.StoreStep | src/cpu/exec-handlers.h:292-308 | an assembled sb, sh or sw writes the one, two or four low bytes of rs2 at its address and changes no other byte, register or device |
| HandlerLaws.MisalignedStep | src/cpu/exec-handlers.h:279-283 | a misaligned load or store aborts |
| HandlerLaws.AluStep | src/cpu/exec-handlers.h:121-213 | an assembled register instruction leaves its value in rd and changes nothing else |
| HandlerLaws.ImmediateStep | src/cpu/exec-handlers.h:233-276 | an assembled immediate instruction does what its register form does with that operand |
| HandlerLaws.UpperStep | src/cpu/exec-handlers.h:223-231 | lui and auipc |
| HandlerLaws.BranchFollowsCompare | src/cpu/exec-handlers.h:359-377 | blt and bltu are taken exactly when an assembled slt or sltu of the same registers writes 1, bge and bgeu exactly when it writes 0 |
| HandlerLaws.EqualBranches | src/cpu/exec-handlers.h:349-357 | beq and bne are taken exactly on equal registers |
| HandlerLaws.CsrStep | src/cpu/exec-handlers.h:387-423 | after an assembled CSR instruction whose guard holds, rd has the old value and each bit of the CSR is set, cleared, kept or replaced as its name says; if the guard fails nothing changes |
| HandlerLaws.PlainStep | src/cpu/exec-handlers.h:73-118 | fence does nothing, ecall and ebreak fail their assertion, an unmatched word ending in 11 only ends the run, any other word fails the opcode assertion |
| Departures.BranchTarget | src/cpu/exec-handlers.h:349-377 | an assembled branch continues at pc + 4 + 2 off when its condition holds and at pc + 4 otherwise |
| Departures.BranchAgrees | src/cpu/exec-handlers.h:343-377 | the branch target is the ISA's exactly when the branch is not taken or the offset is -4; for bne, exactly when the offset is 0 on equal and 4 on different registers |
| Departures.JalTarget | src/cpu/exec-handlers.h:427-430 | jal continues at pc + 4 + (imm_31_12 << 12) |
| Departures.JalNeverAgrees | src/cpu/exec-handlers.h:427-430 | that is never the ISA's target of the same word |
| Departures.JalrTarget | src/cpu/exec-handlers.h:216-220 | jalr continues four past its source register, read after rd was written |
| Departures.JalrAgrees | src/cpu/exec-handlers.h:216-220 | that is the ISA's target exactly when the register is even and the immediate 4 or 5, and with rd = rs1 exactly when register plus immediate is 8 or 9 past the pc |
| Departures.CsrStandard | src/cpu/exec-handlers.h:387-423 | each CSR handler leaves the ISA's state, given by its own set and clear operators, exactly under a condition on its fields and the values of x0, rd, rs1 and the CSR |
| Departures.DivisionStandard | src/cpu/exec-handlers.h:195-213 | div, rem, divu and remu have the ISA's result exactly for a nonzero divisor and not for INT_MIN / -1, and are undefined otherwise |
| Departures.RegistersAfter | src/cpu/exec-handlers.h:121-430 | after any instruction rd holds the value written back and every other register its old value |
| Departures.RegisterZeroStep | src/cpu/exec-handlers.h:121-430 | register 0 keeps its value over a step exactly when the instruction names another rd, writes nothing back, or writes back that value |
| Departures.RegisterZeroRun | src/cpu/cpu-exec.c:156-199 | from gpr[0] = 0, every state of a run has gpr[0] = 0 exactly when no iteration writes another value back to rd = 0 |
| Departures.RegisterZeroChanges | src/cpu/exec-handlers.h:233-236 | addi x0, x0, 1 makes register 0 hold 1 |
| Departures.RegisterZeroExample | src/monitor/monitor.c:167-203 | a machine booted from that one word as its image starts with register 0 holding 0, and its first step makes it 1 |
| AddressMap.FindRegion | src/memory.c:38-46 | find_region returns the first row containing the address, and -1 exactly when there is none |
| AddressMap.CollideIffIntersect | src/memory.c:102-107 | region_collide of two nonempty ranges is true exactly when they share an address |
| AddressMap.InitMmio | src/memory.c:109-119 | init_mmio passes exactly when the rows are pairwise disjoint |
| AddressMap.LookupOrderIndependent | src/memory.c:38-46 | in a table that passes init_mmio the row found is the only one, in any order of the rows |
| AddressMap.MmapApart | src/memory.c:24-34 | the emulator's own table passes init_mmio |
| AddressMap.IoMapMask | include/memory.h:66-68 | iomap is the mask with 0x1FFFFFFF |
| AddressMap.Aliases | include/memory.h:72-82 | every physical address below 512 MB is reached by its low, kseg0 and kseg1 names |
| Ram.MaskedReadIsHandlerRead | include/device.h:8-11 | inside the buffer the masked word read equals the byte-wise read, whatever bytes follow the buffer |
| Ram.HandlerReadIsLe | src/cpu/cpu-exec.c:86-94 | read_handler is the little-endian value of the bytes |
| Ram.HandlerWriteIsSplice | src/cpu/cpu-exec.c:96-113 | write_handler is a copy of the low bytes of the data |
| Ram.WriteHandler | src/cpu/cpu-exec.c:96-113 | write_handler in place leaves the specified buffer |
| Ram.MemCpy | include/device.h:13-15 | the bytes of the range become the source, all others stay |
| Ram.MemZero | src/monitor/monitor.c:79 | the bytes of the range become 0, all others stay |
| Board.LoadPathsAgreeIff | src/cpu/cpu-exec.c:115-130 | load_mem equals vaddr_read exactly when the access stays inside the buffer it starts in |
| Board.StorePathsAgreeIff | src/cpu/cpu-exec.c:132-144 | store_mem equals vaddr_write exactly when an access that starts in the DDR stays inside it |
| Board.AlignedStaysInside | src/cpu/exec-handlers.h:279-283 | the alignment checks suffice: an aligned access never leaves the DDR or the BRAM |
| Board.VgaNeverAborts | src/dev/video.c:18-30 | every access the table routes to the framebuffer passes check_vga |
| Runs.FastPathRefinesTable | src/cpu/cpu-exec.c:156-199 | for every program, start state, event schedule and n, the run through the fast paths has the result of the run that sends every access through the table: for a live run registers, memory, devices and trace, for one that ends the process the trace and the reason |
| Runs.LastLivePrefix | src/cpu/cpu-exec.c:156-199 | a run that ends the process is a live run, whose full state both paths agree on and the run frame describes, and one more iteration |
| Runs.RunSplitting | src/cpu/cpu-exec.c:156-199 | cpu_exec(a) then cpu_exec(b) is cpu_exec(a + b), including early halts and aborts |
| Runs.EndIsAbsorbing | src/cpu/cpu-exec.c:157-160 | a run enters NEMU_END only by executing the invalid handler or a store to the GPIO, and from then on cpu_exec changes nothing |
| Runs.StoreMemFrame | src/dev/gpio.c:10-21 | a store changes only the RAM bytes it names, and sets NEMU_END exactly when it reaches the GPIO |
| Runs.ExecuteBoardFrame | src/cpu/exec-handlers.h:111-118 | one instruction sets NEMU_END exactly when it is invalid or stores to the GPIO, and changes RAM only in its store footprint |
| Runs.ExecuteCpuFrame | src/cpu/exec-handlers.h:111-430 | one instruction changes only the register and CSR it names; hi and lo stay |
| Runs.RunFrames | src/cpu/cpu-exec.c:156-199 | over any number of steps: registers and CSRs change only if an executed instruction names them, hi and lo never, RAM only inside the union of executed store ranges |
| Runs.ZeroRegister | src/cpu/exec-handlers.h:121-430 | gpr[0] stays 0 over any run that executes no instruction with destination 0 |
| Runs.BranchMultiple | src/cpu/exec-handlers.h:343-377 | the doubled branch immediate and the shifted upper immediate are multiples of four |
| Runs.PcAssertOnlyAfterJalr | src/cpu/cpu-exec.c:173 | from an aligned start, if any run fails the pc assertion then some prefix of it ends in a jalr whose source register, as read after rd was written, is misaligned, and the very next step fails |
| Runs.RunTraces | src/cpu/cpu-exec.c:165-180 | the history only grows; a live run leaves every entry complete, a dead one can lack only the newest word |
| Runs.EntryCompleteIff | src/cpu/cpu-exec.c:165-180 | a step adds one entry, which has its word exactly when the pc is aligned and the fetch succeeds |
| Runs.TickDeath | src/cpu/cpu-exec.c:164-196 | how an iteration that ends the process ends: its trace, and the pc assertion exactly on a misaligned pc |
| Runs.QuitExits | src/device.c:33-35 | handler runs exit the process exactly when a poll returns SDL_QUIT |
| Runs.RunLength | src/cpu/cpu-exec.c:164-198 | a live cpu_exec(n) stops after exactly n instructions, or ends after at most n |
| RegionLaws.LowAborts | src/cpu/cpu-exec.c:115-135 | every access below 0x1000 aborts |
| RegionLaws.UnroutedAborts | src/memory.c:73-91 | every access that no row of the table contains aborts |
| RegionLaws.BadAddress | src/memory.c:9-15 | the bad-address region reads 0 and ignores writes |
| RegionLaws.GpioAccess | src/dev/gpio.c:6-21 | only a byte store at the first GPIO address works: it ends the run, and in batch mode the process; all other accesses abort |
| RegionLaws.UartRegisters | src/dev/serial.c:155-197 | which UART registers can be read and written, what Tx sends, and that CTRL reads back what was stored |
| RegionLaws.UartAccess | src/memory.c:73-91 | which loads and stores of the UART region abort |
| MemoryAlgebra.StoreRam | src/cpu/cpu-exec.c:132-144 | a store to DDR, BRAM or the framebuffer through either path succeeds and replaces exactly the bytes it covers |
| MemoryAlgebra.VgaStore | src/dev/video.c:27-30 | a framebuffer store writes the low bytes of its data to video memory and changes nothing else |
| MemoryAlgebra.LoadVga | src/dev/video.c:22-25 | a framebuffer load returns the bytes of video memory at its address |
| MemoryAlgebra.StoreAllBytes | src/cpu/cpu-exec.c:132-144 | after any sequence of RAM stores each byte is the one last written to it, and no device has changed |
| MemoryAlgebra.LoadAfterStores | src/cpu/cpu-exec.c:86-144 | a load after any sequence of stores returns the little-endian combination of the last-written bytes, for every mix of widths and aliases |
| MemoryAlgebra.AlignedLoadAfterStores | src/cpu/exec-handlers.h:279-340 | the same for all accesses that pass the alignment and preventive checks and start in DDR, BRAM or the framebuffer |
| MemoryAlgebra.DisjointStoresCommute | src/cpu/cpu-exec.c:132-144 | stores to disjoint physical ranges commute |
| MemoryAlgebra.FourBytesAreAWord | src/cpu/exec-handlers.h:292-308 | four byte stores leave the same machine as one word store |
| MemoryAlgebra.AliasesStoreAlike | include/memory.h:72-82 | two names of a physical address load and store alike, on every device |
| Uart.PushAppends | src/dev/serial.c:118-124 | a push appends to the waiting characters unless 1023 are waiting |
| Uart.OfferAppends | src/dev/serial.c:142-152 | offering a text appends exactly the longest prefix that fits |
| Uart.AdvanceDrops | src/dev/serial.c:178-179 | advancing a non-empty ring removes the oldest character |
| Uart.SerialPort.EnqueueAscii | src/dev/serial.c:118-124 | the method pushes onto the ring and changes nothing else |
| Uart.SerialPort.Enqueue | src/dev/serial.c:126-153 | the method computes the key-state and ring update of one event |
| Uart.SerialPort.Peek | src/dev/serial.c:159-173 | the value of each readable register, and failure for the others |
| Uart.SerialPort.Read | src/dev/serial.c:175-181 | the value, and the ring advanced on an Rx read of a non-empty ring |
| Uart.SerialPort.Write | src/dev/serial.c:183-197 | the transmitted character or the control register, and failure for the others |
| UartInterleaving.DisciplinedRunIsLossless | src/dev/serial.c:118-181 | with handler runs between any statements of serial_read, a guest that reads Rx only after STAT returned 1 loses, duplicates and reorders nothing: accepted = delivered ++ waiting, at most 1023 waiting |
| UartInterleaving.LosslessFromStart | src/dev/serial.c:118-181 | that holds of every disciplined run from program start |
| UartInterleaving.RxReadBalancedIff | src/dev/serial.c:175-181 | without the discipline, one interrupted Rx read keeps the balance exactly when the ring was non-empty at the peek or the first character arriving afterwards equals the stale cell |
| UartInterleaving.DisciplineIsNecessary | src/dev/serial.c:177-179 | a concrete interleaving in which an undisciplined read skips a character |
| UartInterleaving.UninterruptedRead | src/dev/serial.c:175-181 | the micro-steps without interruption are the register model's serial_read |
| UartKeys.EnqueueDebounces | src/dev/serial.c:126-141 | the key table records which keys are held, and text is offered exactly on released-to-pressed transitions of in-range keys |
| UartKeys.AcceptedStream | src/dev/serial.c:126-153 | over any events and uninterrupted guest accesses, what reads removed from the ring followed by what waits stays the concatenation, in event order, of the accepted prefixes |
| UartKeys.AcceptedFromStart | src/dev/serial.c:126-153 | that holds from program start, with the key table recording which keys are held |
| UartKeys.ReturnedIff | src/dev/serial.c:159-181 | the values that Rx reads returned followed by what waits are the accepted characters exactly when no uninterrupted read found the ring empty |
| UartKeys.SentFollows | src/dev/serial.c:186-189 | over any events the device has sent exactly the low bytes of the Tx writes, in order |
| UartKeys.CtrlFollows | src/dev/serial.c:190-192 | over any events the control register holds the last value written there |
| UartKeys.LongestPrefix | src/dev/serial.c:142-152 | the accepted part is a prefix, all of the text exactly when it fits, and otherwise it fills the ring |
| UartKeys.RepeatIgnored | src/dev/serial.c:131-135 | pressing a held key again changes nothing |
| Emaclite.EthernetMac.Transaction | src/dev/mac.c:253-294 | the PHY initialisation, BMCR write, reset and register read, and failure for other writes |
| Emaclite.EthernetMac.Read | src/dev/mac.c:301-321 | the readable registers, failure for the others, and no change of state |
| Emaclite.EthernetMac.Write | src/dev/mac.c:323-376 | the register written, the programmed station address, the transaction and the cleared command bits |
| Mdio.ReachableStates | src/dev/mac.c:227-266 | after any successful accesses: command bits clear, RX buffers and PHYs other than 1 read 0, BMCR without the reset bit, initialised BMSR with all PHY_DETECT_MASK bits |
| Mdio.TxWriteFrame | src/dev/mac.c:347-352 | a TX buffer write changes one word and never a named control register |
| Mdio.MdioReadAfterWrite | src/dev/mac.c:253-294 | across any interleaving of accesses, reading MDIO_RD returns what the guest's history says the last committed register read should: the last committed non-reset BMCR write or the initial value for PHY 1 BMCR, the initialised values (with the link bits once a reset was committed) for its other registers, 0 for every other PHY |
| Mdio.RunTracks | src/dev/mac.c:359-371 | after any accesses the MDIO registers and, from the first transaction on, all registers of all PHYs are what the guest's own writes say |
| Mdio.StatusReadAfterWrite | src/dev/mac.c:301-364 | across any accesses a read of MDIO_CTRL, TX_PING_TSR or TX_PONG_TSR returns the data last written there without the command bits that the device clears |
| Mdio.AccessOutcomes | src/dev/mac.c:301-376 | which addresses can be read and written, and exactly when a write aborts or is undefined |
| Mdio.AddressFrame | src/dev/mac.c:326-340 | no access but a programming command changes a station address |
| Mdio.ProgramPing | src/dev/mac.c:326-333 | programming with a length of at most six replaces that many bytes of the ping address by the first bytes last written to the ping buffer; six replaces it all |
| Mdio.ProgramPong | src/dev/mac.c:334-340 | the same for the pong address, which either command bit programs |
| Video.DrawPixel | src/dev/video.c:39-44 | the pixel gets the converted colour, all others stay, and it was not drawn before |
| Video.UpdateScreen | src/dev/video.c:46-60 | every window pixel (x, y) shows the cell (x/2, y/2) of video memory, and each is written exactly once |
| Video.ColourRecoverable | src/dev/video.c:32-37 | the 12-bit colour is recoverable from the pixel |
| Video.PixelBytes | src/dev/video.c:32-37 | the four bytes of a pixel: opaque, and each colour nibble in the high half of its byte |
| Screen.CellAfterStores | src/dev/video.c:46-60 | after any sequence of stores to memory, every window pixel shows the colour of the halfword last stored at its cell's address |
| Screen.PaintCell | src/dev/video.c:46-60 | a halfword store to a cell, through any alias, paints its two by two block and leaves every other pixel alone |
| Video.FramesEqualIff | src/dev/video.c:32-60 | two frames are equal exactly when the low 12 bits of all cells agree |
| TraceRing.PushShows | src/cpu/iq.c:16-21 | overwriting the slot at pc_ptr and advancing it keeps the ring equal to the last 8 of 8 blanks followed by the history |
| TraceRing.RecordShows | src/cpu/iq.c:23-26 | recording a word in the newest slot records it in the newest history entry |
| TraceRing.InstrQueue.EnqueuePc | src/cpu/iq.c:16-21 | the history grows by an entry without word, and the ring shows it |
| TraceRing.InstrQueue.EnqueueInstr | src/cpu/iq.c:23-26 | the newest entry gets its word, and the ring shows it |
| TraceRing.InstrQueue.GetCurrentInstr | src/cpu/iq.c:28-32 | the word of the newest history entry, or 0 if its fetch did not complete |
| TraceRing.InstrQueue.PrintQueue | src/cpu/iq.c:34-44 | the wrap-around loop ends after eight lines, which are the last 8 of 8 blanks followed by the history, oldest first |
| Platform.Hardware.VaddrRead | src/memory.c:73-78 | the table-driven read in place, including its failures |
| Platform.Hardware.VaddrWrite | src/memory.c:86-91 | the table-driven write in place, including its failures |
| Platform.Hardware.LoadMem | src/cpu/cpu-exec.c:115-130 | load_mem in place, including its failures |
| Platform.Hardware.StoreMem | src/cpu/cpu-exec.c:132-144 | store_mem in place, including its failures |
| Platform.Hardware.GpioWrite | src/dev/gpio.c:10-21 | the guest-controlled halt, and the exit in batch mode |
| Emulator.Cpu.ExecAlu | src/cpu/exec-handlers.h:121-276 | the register handlers and immediate handlers in place |
| Emulator.Cpu.ExecCsr | src/cpu/exec-handlers.h:387-423 | the CSR handlers in place, rd written first |
| Emulator.Nemu.Execute | src/cpu/exec-handlers.h:73-432 | dispatch and handler in place |
| Emulator.Nemu.Fetch | src/cpu/cpu-exec.c:165-180 | the fetch and the newest trace entry, complete exactly when the fetch succeeds |
| Emulator.Nemu.Tick | src/cpu/cpu-exec.c:164-196 | one iteration of the loop in place |
| Emulator.Nemu.RunHandlers | src/device.c:17-43 | the handler runs of one slot in place, including the exit on SDL_QUIT |
| Emulator.Nemu.CpuExec | src/cpu/cpu-exec.c:156-199 | the in-place run loop computes the run that the whole-run lemmas are about |
| Loader.LoadSegmentIff | src/monitor/monitor.c:77-79 | a segment loads exactly when it lies in one guest memory and in the file, also where address sums wrap |
| Loader.LoadSegmentEffect | src/dev/ddr.c:14-19 | the bytes, high-water marks and bram_mapped flag after one segment |
| Loader.LoadElfIff | src/monitor/monitor.c:65-80 | load_elf succeeds exactly on files that reach past e_phnum, with the ELF magic, readable program headers at offsets that fit an int, and loadable segments that fit, whatever is in memory |
| ElfLayout.ProgramHeaders | src/monitor/monitor.c:73-79 | of any encoded ELF-32 file the loader reads back every program header's type, offset, address and sizes |
| ElfLayout.EncodedFileLoads | src/monitor/monitor.c:65-80 | an encoded file loads exactly when its PT_LOAD segments fit, and its entry point is returned |
| Loader.LoaderCorrect | src/monitor/monitor.c:73-80 | after load_elf with disjoint segments, a guest load at p_vaddr + i sees file byte i below p_filesz and 0 from there to p_memsz |
| Loader.LoaderFrame | src/monitor/monitor.c:73-80 | every other RAM byte is unchanged, each mapped size is the maximum segment end in its region (an upper bound that is attained), and bram_mapped records a segment at the start of the BRAM |
| Loader.MaxEndIsMax | src/dev/ddr.c:14-19 | the mark that the loop keeps is at least the initial one and every segment end, and equal to one of them |
| Loader.ImageIsSegment | src/monitor/monitor.c:85-94 | a raw image loads exactly when it is one segment that fits, and then has that segment's effect |
| Loader.ImageSeen | src/monitor/monitor.c:85-94 | after load_image the guest sees the file at its address and no other RAM byte has changed |
| Boot.MapSegmentInPlace | src/memory.c:48-56 | paddr_map and the map functions in place |
| Boot.LoadElfInPlace | src/monitor/monitor.c:54-83 | the segment loop in place computes what the loader lemmas are about |
| Boot.BramInitInPlace | src/dev/bram.c:39-47 | the stub is written unless the start of the BRAM was mapped |
| Boot.LoadImageInPlace | src/monitor/monitor.c:85-94 | load_image in place, including its failures |
| Boot.InitMonitorInPlace | src/monitor/monitor.c:167-203 | kernel images, program, BRAM initialisation and CPU initialisation, in this order, leave the machine in which cpu_exec starts |
| Boot.Emulate | src/main.c:10-17 | booting any program and running it in place ends with the outcome, and leaves print_instr_queue the lines, of the run that sends every access through the table |
| Boot.StubFetch | src/dev/bram.c:39-47 | the first fetch sees the stub's first word |
| Boot.StubWords | src/dev/bram.c:39-47 | the four words of the stub, as loaded from CPU_INIT_PC on |
| Boot.BootWithoutFirmware | src/dev/bram.c:39-47 | without firmware the first step fails the opcode assertion exactly when bits 16 and 17 of the entry point are not both set |
| Boot.ImageFetch | src/monitor/monitor.c:177 | a raw image runs from its own first word |
| DeviceRuns.MacFollows | src/memory.c:73-91 | one successful access or key event is, for the MAC, the access the table routes to it, or nothing |
| DeviceRuns.UartFollows | src/memory.c:73-91 | one successful access or key event is, for the UART, the event the table or the handler routes to it, or nothing; an Rx load gets the value that event returns |
| DeviceRuns.LoopFollows | src/cpu/cpu-exec.c:164-196 | over any live run with handler runs between instruction slots, the MAC and the UART are what the run's own log of fetches, loads, stores and key events makes of them |
| DeviceRuns.BootedDevices | src/main.c:10-17 | in every live run of a booted machine with handler runs between instruction slots, the MAC is in a reachable state, its MDIO read register returns what the guest's history says, accepted characters = values Rx loads returned ++ waiting exactly when no load found the ring empty, and the transmitted characters are the low bytes of the Tx stores |
| InterruptedRuns.HandlersKeep | src/device.c:17-43 | handler runs keep the reception invariant wherever serial_read stands |
| InterruptedRuns.RxKeeps | src/dev/serial.c:175-181 | an Rx load of a disciplined guest, with handler runs between its statements, returns the oldest character and removes it |
| InterruptedRuns.QuietRun | src/cpu/cpu-exec.c:156-199 | without handler runs inside instructions these runs are the runs of cpu_exec, with the same states and outcomes |
| InterruptedRuns.LosslessRuns | src/dev/serial.c:118-181 | in every live run of a booted machine, wherever the handler interrupts its instructions, a guest whose Rx loads follow a STAT load that returned 1 receives exactly the accepted characters, in order, except those still waiting, at most 1023 |

## Left out

- Register dump and instruction-queue printing at an abort, and the reads that dump performs: the state after an abort is not part of an outcome.
- Timer interrupts inside instructions of the in-place run loop and of the theorems over `Machine.CpuExec`: there the handler runs between instruction slots.  `InterruptedRuns` has the finer runs, and the UART result for them.
- Emulator.Nemu.RunHandlers: does not model the jiffy counter, update_screen and keyboard_enqueue; the framebuffer conversion is proved on its own, and the keyboard's region is commented out of the table, so the guest cannot read it.
- Interrupt by SIGINT (`sigint_handler`): the runs are those in which it does not fire.
- Compiler reordering of the non-volatile ring indices: statement order is assumed.
- SDL calls, the timer as an OS object, screen flipping, standard output and error, `Log`, `print_registers` and the assembly tracer: text and host effects.  Transmitted UART characters are kept as a list.
- Contents of the key-to-text table: an arbitrary function from keys to finite strings; key codes run up to SDLK_LAST = 323 of SDL 1.2.
- `src/dev/keyboard.c` (its region is commented out), `src/dev/spi.c` (disabled), `include/cpu/x86_64.h` (unused).
- Boot.InitMonitorInPlace: does not model option parsing, help text, SIGINT installation, file access and symbolic links; the program and the kernel images are given as their bytes.
- Boot.Emulate: does not model init_device, which opens the window and starts the timer.
- ELF offsets are those of the ELF-32 header; `elf.h` is not part of this model.
- `vaddr_read_safe`, `vaddr_write_safe`, `paddr_peek` and the debugger and difference-test front ends.
- Kernel-mapped and user-mapped address translation, exceptions, ecall and ebreak: not implemented in the source, which aborts.
- Full RISC-V conformance: false of this code; the departures above are stated instead.
- A file that ends inside a header field that the source reads is treated as undefined behaviour, as the source reads past its buffer.
