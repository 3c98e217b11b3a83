// load_elf and bram_init: the ELF segment loop of src/monitor/monitor.c, the map functions it goes
// through, and the boot stub.  Field offsets are those of the ELF-32 header and program header.

module Loader {
  import opened Words
  import opened Outcomes
  import opened AddressMap
  import opened Ram
  import opened Board
  import opened Runs
  import opened MemoryAlgebra

  const ELF_MAGIC: int := 0x464c_457f
  const PT_LOAD: int := 1

  /** The little-endian word at a file offset (0 past the end; callers check Readable first). */
  function U32At(buf: seq<byte>, at: nat): u32 {
    if at + 4 <= |buf| then ReadHandler(buf, at, 4) else 0
  }

  function U16At(buf: seq<byte>, at: nat): u32 {
    if at + 2 <= |buf| then ReadHandler(buf, at, 2) else 0
  }

  function Phnum(buf: seq<byte>): nat { U16At(buf, 44) }

  function HeaderAt(buf: seq<byte>, i: nat): nat {
    U32At(buf, 28) + i * U16At(buf, 42)
  }

  datatype Segment = Segment(offset: u32, vaddr: u32, filesz: u32, memsz: u32)

  predicate IsLoad(buf: seq<byte>, i: nat) {
    U32At(buf, HeaderAt(buf, i)) == PT_LOAD
  }

  function Seg(buf: seq<byte>, i: nat): Segment {
    var at := HeaderAt(buf, i);
    Segment(U32At(buf, at + 4), U32At(buf, at + 8), U32At(buf, at + 16), U32At(buf, at + 20))
  }

  /** The loop reads this program header inside the file, and the int product i * e_phentsize does not
      overflow. */
  predicate Readable(buf: seq<byte>, i: nat) {
    i * U16At(buf, 42) < 0x8000_0000 &&
    HeaderAt(buf, i) + (if IsLoad(buf, i) then 24 else 4) <= |buf|
  }

  /** paddr_map and the map function it reaches, which keep the high-water marks.  The sum addr + len is
      a uint32_t. */
  function MapSegment(b: BoardState, s: Segment): Outcome<BoardState> {
    if !IsUnmapped(s.vaddr) then Dies(CpuAbort)
    else
      var pa := IoMap(s.vaddr);
      match Lookup(MMAP, pa)
      case None => Dies(CpuAbort)
      case Some(r) =>
        var off := pa - r.start;
        var end := Wrap(off + s.memsz);
        if r.dev == Ddr && off < AddressMap.DDR_SIZE && end <= AddressMap.DDR_SIZE then
          Ok(if end >= b.ddrMappedSize then b.(ddrMappedSize := end) else b)
        else if r.dev == Bram && off < AddressMap.BRAM_SIZE && end <= AddressMap.BRAM_SIZE then
          var b1 := if off == 0 then b.(bramMapped := true) else b;
          Ok(if end >= b1.bramMappedSize then b1.(bramMappedSize := end) else b1)
        else Dies(CpuAbort)
  }

  /** memcpy of the file bytes and memset of the rest, in a buffer of the guest. */
  function Fill(mem: seq<byte>, off: nat, buf: seq<byte>, s: Segment): (r: Outcome<seq<byte>>)
    ensures r.Ok? ==> |r.value| == |mem|
  {
    if s.filesz > 0 && (s.offset + s.filesz > |buf| || off + s.filesz > |mem|) then Dies(Undefined)
    else
      var n := Wrap(s.memsz - s.filesz);
      if off + s.filesz + n > |mem| then Dies(Undefined)
      else
        var file := if s.filesz == 0 then [] else buf[s.offset..s.offset + s.filesz];
        Ok(Splice(Splice(mem, off, file), off + s.filesz, Zeros(n)))
  }

  function LoadSegment(b: BoardState, buf: seq<byte>, s: Segment): Outcome<BoardState> {
    var b1 :- MapSegment(b, s);
    var pa := IoMap(s.vaddr);
    if InDdr(pa) then
      var mem :- Fill(b1.ddr, pa - DDR_BASE, buf, s);
      Ok(b1.(ddr := mem))
    else if InBram(pa) then
      var mem :- Fill(b1.bram, pa - BRAM_BASE, buf, s);
      Ok(b1.(bram := mem))
    else Dies(CpuAbort)
  }

  /** The segment loop from header i on. */
  function LoadFrom(b: BoardState, buf: seq<byte>, i: nat): Outcome<BoardState>
    decreases Phnum(buf) - i
  {
    if i >= Phnum(buf) then Ok(b)
    else if !Readable(buf, i) then Dies(Undefined)
    else if !IsLoad(buf, i) then LoadFrom(b, buf, i + 1)
    else
      var b1 :- LoadSegment(b, buf, Seg(buf, i));
      LoadFrom(b1, buf, i + 1)
  }

  /** load_elf on the contents of the file: the board and elf_entry.  The entry point is read before the
      magic is checked, and nothing past e_phnum at offset 44 unless there is a program header. */
  function LoadElf(b: BoardState, buf: seq<byte>): Outcome<(BoardState, u32)> {
    if |buf| < 28 then Dies(Undefined)
    else if U32At(buf, 0) != ELF_MAGIC then Dies(CpuAbort)
    else if |buf| < 46 then Dies(Undefined)
    else
      var b1 :- LoadFrom(b, buf, 0);
      Ok((b1, U32At(buf, 24)))
  }

  /** The segment lies in one guest memory and in the file. */
  predicate Fits(buf: seq<byte>, s: Segment) {
    && IsUnmapped(s.vaddr)
    && s.filesz <= s.memsz
    && (s.filesz > 0 ==> s.offset + s.filesz <= |buf|)
    && var pa := IoMap(s.vaddr);
    && ((InDdr(pa) && pa + s.memsz <= DDR_BASE + AddressMap.DDR_SIZE)
        || (InBram(pa) && pa + s.memsz <= BRAM_BASE + AddressMap.BRAM_SIZE))
  }

  lemma FillIff(mem: seq<byte>, off: nat, buf: seq<byte>, s: Segment)
    requires off <= |mem| < TWO32
    ensures Fill(mem, off, buf, s).Ok? <==>
              s.filesz <= s.memsz && off + s.memsz <= |mem| && (s.filesz > 0 ==> s.offset + s.filesz <= |buf|)
  {
  }

  /** A segment loads exactly when it fits, including the cases where addr + len or memsz - filesz wraps. */
  lemma LoadSegmentIff(b: BoardState, buf: seq<byte>, s: Segment)
    ensures LoadSegment(b, buf, s).Ok? <==> Fits(buf, s)
  {
    hide LookupFrom;
    hide Fill;
    var pa := IoMap(s.vaddr);
    RegionOf(pa);
    MmapCases(pa);
    if InDdr(pa) {
      FillIff(b.ddr, pa - DDR_BASE, buf, s);
    } else if InBram(pa) {
      FillIff(b.bram, pa - BRAM_BASE, buf, s);
    }
  }

  /** From header i on, every header is in the file and every loadable segment fits. */
  predicate AllFit(buf: seq<byte>, i: nat) {
    forall k | i <= k < Phnum(buf) :: Readable(buf, k) && (IsLoad(buf, k) ==> Fits(buf, Seg(buf, k)))
  }

  lemma {:induction false} LoadFromIff(b: BoardState, buf: seq<byte>, i: nat)
    ensures LoadFrom(b, buf, i).Ok? <==> AllFit(buf, i)
    decreases Phnum(buf) - i
  {
    hide LoadSegment;
    hide Fits;
    hide Seg;
    hide IsLoad;
    hide Readable;
    if i < Phnum(buf) {
      if IsLoad(buf, i) {
        LoadSegmentIff(b, buf, Seg(buf, i));
        var r := LoadSegment(b, buf, Seg(buf, i));
        if r.Ok? { LoadFromIff(r.value, buf, i + 1); }
      } else {
        LoadFromIff(b, buf, i + 1);
      }
    }
  }

  /** load_elf succeeds exactly on a file with the ELF magic, readable program headers, and loadable
      segments that fit; whatever else is in memory does not matter. */
  lemma LoadElfIff(b: BoardState, buf: seq<byte>)
    ensures LoadElf(b, buf).Ok? <==> |buf| >= 46 && U32At(buf, 0) == ELF_MAGIC && AllFit(buf, 0)
  {
    hide LoadFrom;
    hide AllFit;
    LoadFromIff(b, buf, 0);
  }

  /** Byte j of a loaded segment. */
  function SegByte(buf: seq<byte>, s: Segment, j: nat): byte {
    if j < s.filesz && s.offset + j < |buf| then buf[s.offset + j] else 0
  }

  predicate InSeg(s: Segment, pa: int) {
    IoMap(s.vaddr) <= pa < IoMap(s.vaddr) + s.memsz
  }

  lemma FillBytes(mem: seq<byte>, off: nat, buf: seq<byte>, s: Segment)
    requires s.filesz <= s.memsz && off + s.memsz <= |mem| < TWO32 && (s.filesz > 0 ==> s.offset + s.filesz <= |buf|)
    ensures Fill(mem, off, buf, s).Ok?
    ensures forall k | 0 <= k < |mem| ::
              Fill(mem, off, buf, s).value[k] == if off <= k < off + s.memsz then SegByte(buf, s, k - off) else mem[k]
  {
    hide Splice;
    hide Zeros;
    var file := if s.filesz == 0 then [] else buf[s.offset..s.offset + s.filesz];
    var m1 := Splice(mem, off, file);
    var v := Splice(m1, off + s.filesz, Zeros(s.memsz - s.filesz));
    assert Fill(mem, off, buf, s) == Ok(v);
    ZeroAt(s.memsz - s.filesz);
    forall k | 0 <= k < |mem|
      ensures Fill(mem, off, buf, s).value[k] == if off <= k < off + s.memsz then SegByte(buf, s, k - off) else mem[k]
    {
      assert v[k] == if off <= k < off + s.memsz then SegByte(buf, s, k - off) else mem[k];
    }
  }

  lemma ZeroAt(n: nat)
    ensures forall i | 0 <= i < n :: Zeros(n)[i] == 0
  {
  }

  /** The end of a segment in a region, or 0 if it lies elsewhere. */
  function EndIn(s: Segment, dev: Device): nat {
    var pa := IoMap(s.vaddr);
    if dev == Ddr && InDdr(pa) then pa - DDR_BASE + s.memsz
    else if dev == Bram && InBram(pa) then pa - BRAM_BASE + s.memsz
    else 0
  }

  function Max(a: nat, b: nat): nat { if a >= b then a else b }

  predicate AtBramStart(s: Segment) { IoMap(s.vaddr) == BRAM_BASE }

  /** Mapping a segment that fits moves the marks and nothing else. */
  lemma MapSegmentEffect(b: BoardState, buf: seq<byte>, s: Segment)
    requires Fits(buf, s)
    ensures MapSegment(b, s) == Ok(b.(ddrMappedSize := Max(b.ddrMappedSize, EndIn(s, Ddr)),
                                      bramMappedSize := Max(b.bramMappedSize, EndIn(s, Bram)),
                                      bramMapped := b.bramMapped || AtBramStart(s)))
  {
    hide LookupFrom;
    MmapCases(IoMap(s.vaddr));
  }

  /** What loading one segment changes. */
  lemma LoadSegmentEffect(b: BoardState, buf: seq<byte>, s: Segment) returns (b': BoardState)
    requires LoadSegment(b, buf, s).Ok?
    ensures LoadSegment(b, buf, s) == Ok(b')
    ensures Fits(buf, s)
    ensures forall pa | InRam(pa) ::
              RamByte(b', pa) == if InSeg(s, pa) then SegByte(buf, s, pa - IoMap(s.vaddr)) else RamByte(b, pa)
    ensures b'.ddrMappedSize == Max(b.ddrMappedSize, EndIn(s, Ddr))
    ensures b'.bramMappedSize == Max(b.bramMappedSize, EndIn(s, Bram))
    ensures b'.bramMapped == (b.bramMapped || AtBramStart(s))
  {
    hide Fill;
    hide SegByte;
    var pa := IoMap(s.vaddr);
    LoadSegmentIff(b, buf, s);
    MapSegmentEffect(b, buf, s);
    hide MapSegment;
    hide EndIn;
    hide Max;
    hide AtBramStart;
    b' := LoadSegment(b, buf, s).value;
    if InDdr(pa) {
      FillBytes(b.ddr, pa - DDR_BASE, buf, s);
    } else {
      FillBytes(b.bram, pa - BRAM_BASE, buf, s);
    }
  }

  ghost predicate DisjointFrom(buf: seq<byte>, i: nat) {
    forall p, q | i <= p < q < Phnum(buf) && IsLoad(buf, p) && IsLoad(buf, q) ::
      forall pa: int :: !(InSeg(Seg(buf, p), pa) && InSeg(Seg(buf, q), pa))
  }

  predicate Untouched(buf: seq<byte>, i: nat, pa: int) {
    forall k | i <= k < Phnum(buf) && IsLoad(buf, k) :: !InSeg(Seg(buf, k), pa)
  }

  function MaxEnd(buf: seq<byte>, i: nat, dev: Device, initial: nat): nat
    decreases Phnum(buf) - i
  {
    if i >= Phnum(buf) then initial
    else MaxEnd(buf, i + 1, dev, if IsLoad(buf, i) then Max(initial, EndIn(Seg(buf, i), dev)) else initial)
  }

  /** v is the maximum of initial and the segment ends in dev, over the headers from i on. */
  predicate IsMaxEnd(v: nat, buf: seq<byte>, i: nat, dev: Device, initial: nat) {
    && v >= initial
    && (forall k | i <= k < Phnum(buf) && IsLoad(buf, k) :: EndIn(Seg(buf, k), dev) <= v)
    && (v == initial || exists k :: i <= k < Phnum(buf) && IsLoad(buf, k) && EndIn(Seg(buf, k), dev) == v)
  }

  lemma {:induction false} MaxEndIsMax(buf: seq<byte>, i: nat, dev: Device, initial: nat)
    ensures IsMaxEnd(MaxEnd(buf, i, dev, initial), buf, i, dev, initial)
    decreases Phnum(buf) - i
  {
    hide Seg;
    hide IsLoad;
    hide EndIn;
    if i < Phnum(buf) {
      MaxEndIsMax(buf, i + 1, dev, if IsLoad(buf, i) then Max(initial, EndIn(Seg(buf, i), dev)) else initial);
    }
  }

  predicate MapsBramStart(buf: seq<byte>, i: nat) {
    exists k :: i <= k < Phnum(buf) && IsLoad(buf, k) && AtBramStart(Seg(buf, k))
  }

  /** Bytes outside every segment keep their value. */
  lemma {:induction false} LoadFromFrame(b: BoardState, buf: seq<byte>, i: nat, pa: int)
    requires LoadFrom(b, buf, i).Ok? && InRam(pa) && Untouched(buf, i, pa)
    ensures RamByte(LoadFrom(b, buf, i).value, pa) == RamByte(b, pa)
    decreases Phnum(buf) - i
  {
    hide LoadSegment;
    hide Seg;
    hide IsLoad;
    hide InSeg;
    hide RamByte;
    if i < Phnum(buf) {
      if IsLoad(buf, i) {
        var b1 := LoadSegmentEffect(b, buf, Seg(buf, i));
        LoadFromFrame(b1, buf, i + 1, pa);
      } else {
        LoadFromFrame(b, buf, i + 1, pa);
      }
    }
  }

  /** Byte j of segment k, when the segments are disjoint. */
  lemma {:induction false} LoadFromBytes(b: BoardState, buf: seq<byte>, i: nat, k: nat, j: nat)
    requires LoadFrom(b, buf, i).Ok? && DisjointFrom(buf, i)
    requires i <= k < Phnum(buf) && IsLoad(buf, k) && j < Seg(buf, k).memsz
    ensures var pa := IoMap(Seg(buf, k).vaddr) + j;
            && Fits(buf, Seg(buf, k)) && InRam(pa)
            && RamByte(LoadFrom(b, buf, i).value, pa) == SegByte(buf, Seg(buf, k), j)
    decreases Phnum(buf) - i
  {
    hide LoadSegment;
    hide Seg;
    hide IsLoad;
    hide RamByte;
    hide SegByte;
    if i == k {
      var s := Seg(buf, k);
      var b1 := LoadSegmentEffect(b, buf, s);
      var pa := IoMap(s.vaddr) + j;
      assert InSeg(s, pa);
      assert Untouched(buf, i + 1, pa);
      LoadFromFrame(b1, buf, i + 1, pa);
    } else if IsLoad(buf, i) {
      var b1 := LoadSegmentEffect(b, buf, Seg(buf, i));
      LoadFromBytes(b1, buf, i + 1, k, j);
    } else {
      LoadFromBytes(b, buf, i + 1, k, j);
    }
  }

  /** The high-water marks are the maximum segment ends, and bram_mapped records a segment at the start
      of the BRAM. */
  lemma {:induction false} LoadFromMarks(b: BoardState, buf: seq<byte>, i: nat)
    requires LoadFrom(b, buf, i).Ok?
    ensures var b' := LoadFrom(b, buf, i).value;
            && b'.ddrMappedSize == MaxEnd(buf, i, Ddr, b.ddrMappedSize)
            && b'.bramMappedSize == MaxEnd(buf, i, Bram, b.bramMappedSize)
            && b'.bramMapped == (b.bramMapped || MapsBramStart(buf, i))
    decreases Phnum(buf) - i
  {
    hide LoadSegment;
    hide Seg;
    hide IsLoad;
    hide EndIn;
    hide AtBramStart;
    hide Fits;
    hide RamByte;
    if i < Phnum(buf) {
      var b1 := b;
      if IsLoad(buf, i) {
        b1 := LoadSegmentEffect(b, buf, Seg(buf, i));
      }
      LoadFromMarks(b1, buf, i + 1);
      if MapsBramStart(buf, i + 1) {
        var k :| i + 1 <= k < Phnum(buf) && IsLoad(buf, k) && AtBramStart(Seg(buf, k));
        assert MapsBramStart(buf, i);
      }
      if IsLoad(buf, i) && AtBramStart(Seg(buf, i)) {
        assert MapsBramStart(buf, i);
      }
    }
  }

  /** A guest byte load at p_vaddr + j returns byte j of the segment. */
  predicate GuestSees(mode: Mode, b: BoardState, buf: seq<byte>, s: Segment, j: nat) {
    s.vaddr + j < TWO32 && LoadMem(mode, b, s.vaddr + j, 1) == Ok((b, SegByte(buf, s, j)))
  }

  /** After load_elf of disjoint segments, a guest load at p_vaddr + j sees byte j of the segment: the file
      byte below p_filesz, and 0 from there to p_memsz. */
  lemma LoaderCorrect(mode: Mode, b: BoardState, buf: seq<byte>)
    ensures LoadElf(b, buf).Ok? && DisjointFrom(buf, 0) ==>
              var b' := LoadElf(b, buf).value.0;
              forall k, j | 0 <= k < Phnum(buf) && IsLoad(buf, k) && 0 <= j < Seg(buf, k).memsz ::
                GuestSees(mode, b', buf, Seg(buf, k), j)
  {
    hide GuestSees;
    hide LoadElf;
    hide Seg;
    hide IsLoad;
    hide SegByte;
    hide DisjointFrom;
    if LoadElf(b, buf).Ok? && DisjointFrom(buf, 0) {
      var b' := LoadElf(b, buf).value.0;
      forall k, j | 0 <= k < Phnum(buf) && IsLoad(buf, k) && 0 <= j < Seg(buf, k).memsz
        ensures GuestSees(mode, b', buf, Seg(buf, k), j)
      {
        LoadedByte(mode, b, buf, k, j);
      }
    }
  }

  lemma LoadedByte(mode: Mode, b: BoardState, buf: seq<byte>, k: nat, j: nat)
    requires LoadElf(b, buf).Ok? && DisjointFrom(buf, 0)
    requires k < Phnum(buf) && IsLoad(buf, k) && j < Seg(buf, k).memsz
    ensures GuestSees(mode, LoadElf(b, buf).value.0, buf, Seg(buf, k), j)
  {
    hide LoadMem;
    hide Seg;
    hide IsLoad;
    hide SegByte;
    hide RamByte;
    hide LoadFrom;
    hide DisjointFrom;
    var s := Seg(buf, k);
    LoadFromBytes(b, buf, 0, k, j);
    SeenByte(mode, LoadElf(b, buf).value.0, buf, s, j);
  }

  lemma SeenByte(mode: Mode, b: BoardState, buf: seq<byte>, s: Segment, j: nat)
    requires Fits(buf, s) && j < s.memsz && RamByte(b, IoMap(s.vaddr) + j) == SegByte(buf, s, j)
    ensures GuestSees(mode, b, buf, s, j)
  {
    hide LoadMem;
    hide SegByte;
    hide RamByte;
    SegmentAddress(buf, s, j);
    LoadRam(mode, b, s.vaddr + j, 1);
    LoadOneByte(b, ProtAddr(s.vaddr + j));
  }

  lemma SegmentAddress(buf: seq<byte>, s: Segment, j: nat)
    requires Fits(buf, s) && j < s.memsz
    ensures s.vaddr + j < TWO32 && ProtAddr(s.vaddr + j) == IoMap(s.vaddr) + j && RamAccess(s.vaddr + j, 1)
  {
    var q, r := s.vaddr / 0x2000_0000, s.vaddr % 0x2000_0000;
    assert s.vaddr == 0x2000_0000 * q + r;
    assert r + j < 0x2000_0000;
    assert 4 <= q < 6;
    DivModUnique(s.vaddr + j, 0x2000_0000, q, r + j);
  }

  lemma LoadOneByte(b: BoardState, pa: int)
    ensures Le(RamBytes(b, pa, 1)) == RamByte(b, pa)
  {
    hide RamByte;
    LeUpTo4(RamBytes(b, pa, 1));
  }

  /** Every other byte of guest RAM is unchanged, and the marks are the maximum segment ends. */
  lemma LoaderFrame(b: BoardState, buf: seq<byte>)
    requires LoadElf(b, buf).Ok?
    ensures var b' := LoadElf(b, buf).value.0;
            && (forall pa | InRam(pa) && Untouched(buf, 0, pa) :: RamByte(b', pa) == RamByte(b, pa))
            && IsMaxEnd(b'.ddrMappedSize, buf, 0, Ddr, b.ddrMappedSize)
            && IsMaxEnd(b'.bramMappedSize, buf, 0, Bram, b.bramMappedSize)
            && b'.bramMapped == (b.bramMapped || MapsBramStart(buf, 0))
  {
    hide LoadFrom;
    hide MapsBramStart;
    hide MaxEnd;
    hide IsMaxEnd;
    MaxEndIsMax(buf, 0, Ddr, b.ddrMappedSize);
    MaxEndIsMax(buf, 0, Bram, b.bramMappedSize);
    hide RamByte;
    hide Untouched;
    LoadFromMarks(b, buf, 0);
    forall pa | InRam(pa) && Untouched(buf, 0, pa) ensures RamByte(LoadElf(b, buf).value.0, pa) == RamByte(b, pa) {
      LoadFromFrame(b, buf, 0, pa);
    }
  }

  /** load_image: the file size is a size_t, and paddr_map takes its low 32 bits. */
  function LoadImage(b: BoardState, file: seq<byte>, vaddr: u32): Outcome<BoardState> {
    var b1 :- MapSegment(b, Segment(0, vaddr, 0, Wrap(|file|)));
    var pa := IoMap(vaddr);
    if InDdr(pa) then
      if pa - DDR_BASE + |file| <= AddressMap.DDR_SIZE then Ok(b1.(ddr := Splice(b1.ddr, pa - DDR_BASE, file)))
      else Dies(Undefined)
    else if InBram(pa) then
      if pa - BRAM_BASE + |file| <= AddressMap.BRAM_SIZE then Ok(b1.(bram := Splice(b1.bram, pa - BRAM_BASE, file)))
      else Dies(Undefined)
    else Dies(CpuAbort)
  }

  /** The image as one segment. */
  function ImageSegment(file: seq<byte>, vaddr: u32): Segment
    requires |file| < TWO32
  {
    Segment(0, vaddr, |file|, |file|)
  }

  /** An image loads exactly when it is one segment that fits, and then it has that segment's effect. */
  lemma ImageIsSegment(b: BoardState, file: seq<byte>, vaddr: u32)
    ensures LoadImage(b, file, vaddr).Ok? <==> |file| < TWO32 && Fits(file, ImageSegment(file, vaddr))
    ensures |file| < TWO32 ==> LoadImage(b, file, vaddr) == LoadSegment(b, file, ImageSegment(file, vaddr))
  {
    if |file| < TWO32 {
      hide LoadImage;
      hide Fits;
      hide LoadSegment;
      SmallImage(b, file, vaddr);
      LoadSegmentIff(b, file, ImageSegment(file, vaddr));
    } else {
      hide MapSegment;
    }
  }

  lemma SmallImage(b: BoardState, file: seq<byte>, vaddr: u32)
    requires |file| < TWO32
    ensures LoadImage(b, file, vaddr) == LoadSegment(b, file, ImageSegment(file, vaddr))
  {
    var pa, s := IoMap(vaddr), ImageSegment(file, vaddr);
    MapSame(b, Segment(0, vaddr, 0, Wrap(|file|)), s);
    hide MapSegment;
    hide Fill;
    hide Splice;
    var b1 := MapSegment(b, s);
    if b1.Ok? {
      if InDdr(pa) { FillWhole(b1.value.ddr, pa - DDR_BASE, file, s); }
      if InBram(pa) { FillWhole(b1.value.bram, pa - BRAM_BASE, file, s); }
    }
  }

  lemma MapSame(b: BoardState, s: Segment, t: Segment)
    requires s.vaddr == t.vaddr && s.memsz == t.memsz
    ensures MapSegment(b, s) == MapSegment(b, t)
  {
  }

  lemma FillWhole(mem: seq<byte>, off: nat, file: seq<byte>, s: Segment)
    requires s.offset == 0 && s.filesz == |file| == s.memsz && off < |mem|
    ensures Fill(mem, off, file, s) ==
            if off + |file| <= |mem| then Ok(Splice(mem, off, file)) else Dies(Undefined)
  {
    if off + |file| <= |mem| {
      var m1 := Splice(mem, off, file);
      assert Splice(m1, off + |file|, Zeros(0)) == m1;
      assert file[0..|file|] == file;
    }
  }

  /** After load_image the guest sees the file at vaddr, and no other byte of RAM has changed. */
  lemma ImageSeen(mode: Mode, b: BoardState, file: seq<byte>, vaddr: u32)
    requires LoadImage(b, file, vaddr).Ok?
    ensures |file| < TWO32
    ensures var b' := LoadImage(b, file, vaddr).value;
            && (forall j | 0 <= j < |file| :: GuestSees(mode, b', file, ImageSegment(file, vaddr), j))
            && (forall pa | InRam(pa) && !InSeg(ImageSegment(file, vaddr), pa) :: RamByte(b', pa) == RamByte(b, pa))
  {
    hide LoadImage;
    hide LoadSegment;
    hide GuestSees;
    hide RamByte;
    hide SegByte;
    ImageIsSegment(b, file, vaddr);
    var s := ImageSegment(file, vaddr);
    var b' := LoadSegmentEffect(b, file, s);
    forall j | 0 <= j < |file| ensures GuestSees(mode, b', file, s, j) {
      SeenByte(mode, b', file, s, j);
    }
  }

  /** The words of the boot stub. */
  function StubBytes(entry: u32): (s: seq<byte>)
    ensures |s| == 16
  {
    LeBytes(0x3c08_0000 + entry / 0x1_0000, 4) + LeBytes(0x2508_0000 + entry % 0x1_0000, 4)
    + LeBytes(0x0100_0008, 4) + LeBytes(0, 4)
  }

  /** bram_init */
  function BramInit(b: BoardState, entry: u32): BoardState {
    if b.bramMapped then b else b.(bram := Splice(b.bram, 0, StubBytes(entry)))
  }
}
