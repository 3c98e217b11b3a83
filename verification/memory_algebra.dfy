// What a load returns after any sequence of stores to DDR, BRAM and video memory, through whichever aliases.

module MemoryAlgebra {
  import opened Words
  import opened Outcomes
  import opened AddressMap
  import opened Ram
  import opened Video
  import opened Board
  import opened Runs

  datatype Store = Store(addr: u32, len: alen, data: u32)

  /** The table routes this address to the DDR, the BRAM or the framebuffer. */
  predicate StartsInRam(pa: int) { InDdr(pa) || InBram(pa) || InVga(pa) }

  /** The access passes the preventive check and stays inside the memory it starts in. */
  predicate RamAccess(addr: u32, len: alen) {
    addr >= 0x1000 && StartsInRam(ProtAddr(addr)) && !Overruns(ProtAddr(addr), len)
  }

  /** An access that passes the alignment and the preventive check and starts in RAM. */
  predicate Aligned(addr: u32, len: alen) {
    len != 3 && addr % len == 0 && addr >= 0x1000 && StartsInRam(ProtAddr(addr))
  }

  lemma AlignedRamAccess(addr: u32, len: alen)
    requires Aligned(addr, len)
    ensures RamAccess(addr, len)
  {
    AlignedStaysInside(addr, len);
  }

  /** Byte k of a little-endian word. */
  function ByteOf(data: u32, k: nat): byte
    requires k < 4
  {
    if k == 0 then data % 0x100
    else if k == 1 then data / 0x100 % 0x100
    else if k == 2 then data / 0x1_0000 % 0x100
    else data / 0x100_0000 % 0x100
  }

  predicate Covers(s: Store, pa: int) {
    ProtAddr(s.addr) <= pa < ProtAddr(s.addr) + s.len
  }

  function Put(s: Store, pa: int, old_: byte): byte {
    if Covers(s, pa) then ByteOf(s.data, pa - ProtAddr(s.addr)) else old_
  }

  /** The stored buffer, byte by byte. */
  lemma HandlerWriteBytes(p: seq<byte>, off: nat, len: alen, data: u32)
    requires off + len <= |p|
    ensures var q := WriteHandlerBytes(p, off, len, data);
            forall i | 0 <= i < |p| :: q[i] == if off <= i < off + len then ByteOf(data, i - off) else p[i]
  {
  }

  lemma DdrStore(mode: Mode, b: BoardState, s: Store, batch: bool)
    requires RamAccess(s.addr, s.len) && InDdr(ProtAddr(s.addr))
    ensures StoreMem(mode, b, s.addr, s.len, s.data, batch)
         == Ok(b.(ddr := WriteHandlerBytes(b.ddr, ProtAddr(s.addr) - DDR_BASE, s.len, s.data)))
  {
    MmapCases(ProtAddr(s.addr));
    HandlerWriteIsSplice(b.ddr, ProtAddr(s.addr) - DDR_BASE, s.len, s.data);
  }

  lemma BramStore(mode: Mode, b: BoardState, s: Store, batch: bool)
    requires RamAccess(s.addr, s.len) && InBram(ProtAddr(s.addr))
    ensures StoreMem(mode, b, s.addr, s.len, s.data, batch)
         == Ok(b.(bram := WriteHandlerBytes(b.bram, ProtAddr(s.addr) - BRAM_BASE, s.len, s.data)))
  {
    MmapCases(ProtAddr(s.addr));
    HandlerWriteIsSplice(b.bram, ProtAddr(s.addr) - BRAM_BASE, s.len, s.data);
  }

  lemma VgaStore(mode: Mode, b: BoardState, s: Store, batch: bool)
    requires RamAccess(s.addr, s.len) && InVga(ProtAddr(s.addr))
    ensures StoreMem(mode, b, s.addr, s.len, s.data, batch)
         == Ok(b.(vmem := WriteHandlerBytes(b.vmem, ProtAddr(s.addr) - VGA_BASE, s.len, s.data)))
  {
    VgaRow(ProtAddr(s.addr));
    HandlerWriteIsSplice(b.vmem, ProtAddr(s.addr) - VGA_BASE, s.len, s.data);
  }

  /** Nothing but RAM differs. */
  predicate SameDevices(b: BoardState, b': BoardState) {
    b' == b.(ddr := b'.ddr, bram := b'.bram, vmem := b'.vmem)
  }

  /** A store to RAM succeeds and replaces exactly the bytes it covers. */
  lemma StoreRam(mode: Mode, b: BoardState, s: Store, batch: bool) returns (b': BoardState)
    requires RamAccess(s.addr, s.len)
    ensures StoreMem(mode, b, s.addr, s.len, s.data, batch) == Ok(b')
    ensures SameDevices(b, b')
    ensures forall pa | InRam(pa) :: RamByte(b', pa) == Put(s, pa, RamByte(b, pa))
  {
    hide StoreMem;
    var pa := ProtAddr(s.addr);
    if InDdr(pa) {
      DdrStore(mode, b, s, batch);
      HandlerWriteBytes(b.ddr, pa - DDR_BASE, s.len, s.data);
    } else if InVga(pa) {
      VgaStore(mode, b, s, batch);
      HandlerWriteBytes(b.vmem, pa - VGA_BASE, s.len, s.data);
    } else {
      BramStore(mode, b, s, batch);
      HandlerWriteBytes(b.bram, pa - BRAM_BASE, s.len, s.data);
    }
    b' := StoreMem(mode, b, s.addr, s.len, s.data, batch).value;
  }

  function StoreAll(mode: Mode, b: BoardState, stores: seq<Store>, batch: bool): Outcome<BoardState>
    decreases |stores|
  {
    if stores == [] then Ok(b)
    else
      var b1 :- StoreMem(mode, b, stores[0].addr, stores[0].len, stores[0].data, batch);
      StoreAll(mode, b1, stores[1..], batch)
  }

  /** The byte most recently stored at pa, or the initial one. */
  function LastByte(initial: byte, stores: seq<Store>, pa: int): byte
    decreases |stores|
  {
    if stores == [] then initial
    else
      var s := stores[|stores| - 1];
      if Covers(s, pa) then ByteOf(s.data, pa - ProtAddr(s.addr)) else LastByte(initial, stores[..|stores| - 1], pa)
  }

  lemma {:induction false} LastByteFirst(initial: byte, stores: seq<Store>, pa: int)
    requires stores != []
    ensures LastByte(initial, stores, pa) == LastByte(Put(stores[0], pa, initial), stores[1..], pa)
    decreases |stores|
  {
    if |stores| > 1 {
      var p := stores[..|stores| - 1];
      LastByteFirst(initial, p, pa);
      assert p[1..] == stores[1..][..|stores| - 2];
    }
  }

  lemma {:induction false} StoreAllBytes(mode: Mode, b: BoardState, stores: seq<Store>, batch: bool) returns (b': BoardState)
    requires forall i | 0 <= i < |stores| :: RamAccess(stores[i].addr, stores[i].len)
    ensures StoreAll(mode, b, stores, batch) == Ok(b')
    ensures SameDevices(b, b')
    ensures forall pa | InRam(pa) :: RamByte(b', pa) == LastByte(RamByte(b, pa), stores, pa)
    decreases |stores|
  {
    hide StoreMem;
    if stores == [] {
      b' := b;
    } else {
      var b1 := StoreRam(mode, b, stores[0], batch);
      b' := StoreAllBytes(mode, b1, stores[1..], batch);
      forall pa | InRam(pa) ensures RamByte(b', pa) == LastByte(RamByte(b, pa), stores, pa) {
        LastByteFirst(RamByte(b, pa), stores, pa);
      }
    }
  }

  /** The bytes last stored at pa, pa + 1, ..., pa + n - 1. */
  function Latest(b: BoardState, stores: seq<Store>, pa: int, n: nat): (s: seq<byte>)
    ensures |s| == n && forall i | 0 <= i < n :: s[i] == LastByte(RamByte(b, pa + i), stores, pa + i)
    decreases n
  {
    if n == 0 then []
    else Latest(b, stores, pa, n - 1) + [LastByte(RamByte(b, pa + n - 1), stores, pa + n - 1)]
  }

  /** A load returns the little-endian combination of the last-written bytes, whatever mix of widths and
      aliases wrote them and whichever path performs the load. */
  lemma LoadAfterStores(mode: Mode, b: BoardState, stores: seq<Store>, batch: bool, addr: u32, len: alen)
    requires forall i | 0 <= i < |stores| :: RamAccess(stores[i].addr, stores[i].len)
    requires RamAccess(addr, len)
    ensures StoreAll(mode, b, stores, batch).Ok?
    ensures var b' := StoreAll(mode, b, stores, batch).value;
            && LoadMem(mode, b', addr, len).Ok?
            && LoadMem(mode, b', addr, len).value.1 == Le(Latest(b, stores, ProtAddr(addr), len))
  {
    var pa := ProtAddr(addr);
    var b' := StoreAllBytes(mode, b, stores, batch);
    LoadRam(mode, b', addr, len);
    assert RamBytes(b', pa, len) == Latest(b, stores, pa, len);
  }

  /** The same for aligned accesses, which need no further condition than that they start in RAM. */
  lemma AlignedLoadAfterStores(mode: Mode, b: BoardState, stores: seq<Store>, batch: bool, addr: u32, len: alen)
    requires forall i | 0 <= i < |stores| :: Aligned(stores[i].addr, stores[i].len)
    requires Aligned(addr, len)
    ensures StoreAll(mode, b, stores, batch).Ok?
    ensures var b' := StoreAll(mode, b, stores, batch).value;
            && LoadMem(mode, b', addr, len).Ok?
            && LoadMem(mode, b', addr, len).value.1 == Le(Latest(b, stores, ProtAddr(addr), len))
  {
    hide LoadMem;
    hide StoreAll;
    hide RamAccess;
    forall i | 0 <= i < |stores| ensures RamAccess(stores[i].addr, stores[i].len) {
      AlignedRamAccess(stores[i].addr, stores[i].len);
    }
    AlignedRamAccess(addr, len);
    LoadAfterStores(mode, b, stores, batch, addr, len);
  }

  function RamBytes(b: BoardState, pa: int, n: nat): (s: seq<byte>)
    ensures |s| == n && forall i | 0 <= i < n :: s[i] == RamByte(b, pa + i)
    decreases n
  {
    if n == 0 then [] else RamBytes(b, pa, n - 1) + [RamByte(b, pa + n - 1)]
  }

  lemma LoadVga(mode: Mode, b: BoardState, addr: u32, len: alen)
    requires RamAccess(addr, len) && InVga(ProtAddr(addr))
    ensures LoadMem(mode, b, addr, len) == Ok((b, ReadHandler(b.vmem, ProtAddr(addr) - VGA_BASE, len)))
  {
    hide ReadHandler;
    hide ReadMaskedWord;
    hide LookupFrom;
    VgaRow(ProtAddr(addr));
    MaskedReadIsHandlerRead(b.vmem, ProtAddr(addr) - VGA_BASE, len, SLACK);
  }

  lemma SliceBytes(b: BoardState, pa: int, n: nat, mem: seq<byte>, base: int)
    requires base <= pa && pa - base + n <= |mem|
    requires forall q | pa <= q < pa + n :: RamByte(b, q) == mem[q - base]
    ensures RamBytes(b, pa, n) == mem[pa - base..pa - base + n]
  {
    hide RamByte;
    var s := mem[pa - base..pa - base + n];
    forall i | 0 <= i < n ensures RamBytes(b, pa, n)[i] == s[i] {
      assert RamByte(b, pa + i) == mem[pa + i - base];
    }
  }

  /** A RAM load is the little-endian value of the bytes at its physical address. */
  lemma LoadRam(mode: Mode, b: BoardState, addr: u32, len: alen)
    requires RamAccess(addr, len)
    ensures LoadMem(mode, b, addr, len).Ok? && LoadMem(mode, b, addr, len).value.0 == b
    ensures LoadMem(mode, b, addr, len).value.1 == Le(RamBytes(b, ProtAddr(addr), len))
  {
    hide LoadMem;
    hide ReadHandler;
    hide RamBytes;
    hide Le;
    hide ProtAddr;
    var pa := ProtAddr(addr);
    if InDdr(pa) {
      LoadDdr(b, addr, len);
      HandlerReadIsLe(b.ddr, pa - DDR_BASE, len);
      SliceBytes(b, pa, len, b.ddr, DDR_BASE);
    } else if InVga(pa) {
      LoadVga(mode, b, addr, len);
      HandlerReadIsLe(b.vmem, pa - VGA_BASE, len);
      SliceBytes(b, pa, len, b.vmem, VGA_BASE);
    } else {
      LoadBram(b, addr, len);
      HandlerReadIsLe(b.bram, pa - BRAM_BASE, len);
      SliceBytes(b, pa, len, b.bram, BRAM_BASE);
    }
  }

  /** Boards with the same devices and the same RAM bytes are equal. */
  lemma SameRam(b: BoardState, c: BoardState)
    requires SameDevices(b, c) && forall pa | InRam(pa) :: RamByte(b, pa) == RamByte(c, pa)
    ensures b == c
  {
    forall i | 0 <= i < AddressMap.DDR_SIZE ensures b.ddr[i] == c.ddr[i] {
      assert RamByte(b, DDR_BASE + i) == RamByte(c, DDR_BASE + i);
    }
    forall i | 0 <= i < AddressMap.BRAM_SIZE ensures b.bram[i] == c.bram[i] {
      assert RamByte(b, BRAM_BASE + i) == RamByte(c, BRAM_BASE + i);
    }
    forall i | 0 <= i < VMEM_SIZE ensures b.vmem[i] == c.vmem[i] {
      assert RamByte(b, VGA_BASE + i) == RamByte(c, VGA_BASE + i);
    }
    assert b.ddr == c.ddr && b.bram == c.bram && b.vmem == c.vmem;
  }

  /** Two store sequences that leave the same last byte everywhere leave the same board. */
  lemma SameLastBytes(mode: Mode, b: BoardState, s1: seq<Store>, s2: seq<Store>, batch: bool)
    requires forall i | 0 <= i < |s1| :: RamAccess(s1[i].addr, s1[i].len)
    requires forall i | 0 <= i < |s2| :: RamAccess(s2[i].addr, s2[i].len)
    requires forall pa: int, initial: byte :: LastByte(initial, s1, pa) == LastByte(initial, s2, pa)
    ensures StoreAll(mode, b, s1, batch) == StoreAll(mode, b, s2, batch)
  {
    var b1 := StoreAllBytes(mode, b, s1, batch);
    var b2 := StoreAllBytes(mode, b, s2, batch);
    SameRam(b1, b2);
  }

  /** Stores to disjoint physical ranges commute. */
  lemma DisjointStoresCommute(mode: Mode, b: BoardState, s: Store, t: Store, batch: bool)
    requires RamAccess(s.addr, s.len) && RamAccess(t.addr, t.len)
    requires forall pa: int :: !(Covers(s, pa) && Covers(t, pa))
    ensures StoreAll(mode, b, [s, t], batch) == StoreAll(mode, b, [t, s], batch)
  {
    forall pa: int, initial: byte ensures LastByte(initial, [s, t], pa) == LastByte(initial, [t, s], pa) {
      LastByteFirst(initial, [s, t], pa);
      LastByteFirst(initial, [t, s], pa);
      OneByte(Put(s, pa, initial), t, pa);
      OneByte(Put(t, pa, initial), s, pa);
    }
    SameLastBytes(mode, b, [s, t], [t, s], batch);
  }

  lemma OneByte(initial: byte, s: Store, pa: int)
    ensures LastByte(initial, [s], pa) == Put(s, pa, initial)
  {
    LastByteFirst(initial, [s], pa);
  }

  /** Two names of the same physical address store to the same place. */
  lemma AliasesStoreAlike(mode: Mode, b: BoardState, a1: u32, a2: u32, len: alen, data: u32, batch: bool)
    requires a1 >= 0x1000 && a2 >= 0x1000 && ProtAddr(a1) == ProtAddr(a2)
    ensures StoreMem(mode, b, a1, len, data, batch) == StoreMem(mode, b, a2, len, data, batch)
    ensures LoadMem(mode, b, a1, len) == LoadMem(mode, b, a2, len)
  {
    hide DeviceRead;
    hide DeviceWrite;
    hide LookupFrom;
  }

  /** Four byte stores are one word store. */
  lemma FourBytesAreAWord(mode: Mode, b: BoardState, addr: u32, data: u32, batch: bool)
    requires RamAccess(addr, 4) && addr % 4 == 0
    ensures StoreAll(mode, b, [Store(addr, 4, data)], batch)
         == StoreAll(mode, b, [Store(addr, 1, data % 0x100), Store(addr + 1, 1, data / 0x100 % 0x100),
                               Store(addr + 2, 1, data / 0x1_0000 % 0x100), Store(addr + 3, 1, data / 0x100_0000 % 0x100)], batch)
  {
    var w := Store(addr, 4, data);
    var s0, s1 := Store(addr, 1, data % 0x100), Store(addr + 1, 1, data / 0x100 % 0x100);
    var s2, s3 := Store(addr + 2, 1, data / 0x1_0000 % 0x100), Store(addr + 3, 1, data / 0x100_0000 % 0x100);
    hide StoreAll;
    hide LastByte;
    hide RamAccess;
    hide ProtAddr;
    hide Put;
    NextAddr(addr, 0);
    NextAddr(addr, 1);
    NextAddr(addr, 2);
    NextAddr(addr, 3);
    forall pa: int, initial: byte ensures LastByte(initial, [w], pa) == LastByte(initial, [s0, s1, s2, s3], pa) {
      OneByte(initial, w, pa);
      FourPuts(initial, s0, s1, s2, s3, pa);
      WordPuts(initial, w, s0, s1, s2, s3, pa);
    }
    SameLastBytes(mode, b, [w], [s0, s1, s2, s3], batch);
  }

  /** Where each byte of the word lands. */
  lemma WordPuts(initial: byte, w: Store, s0: Store, s1: Store, s2: Store, s3: Store, pa: int)
    requires w.len == 4 && s0.len == 1 && s1.len == 1 && s2.len == 1 && s3.len == 1
    requires ProtAddr(s0.addr) == ProtAddr(w.addr) && ProtAddr(s1.addr) == ProtAddr(w.addr) + 1
    requires ProtAddr(s2.addr) == ProtAddr(w.addr) + 2 && ProtAddr(s3.addr) == ProtAddr(w.addr) + 3
    requires s0.data == w.data % 0x100 && s1.data == w.data / 0x100 % 0x100
    requires s2.data == w.data / 0x1_0000 % 0x100 && s3.data == w.data / 0x100_0000 % 0x100
    ensures Put(w, pa, initial) == Put(s3, pa, Put(s2, pa, Put(s1, pa, Put(s0, pa, initial))))
  {
    hide ProtAddr;
  }

  lemma FourPuts(initial: byte, s0: Store, s1: Store, s2: Store, s3: Store, pa: int)
    ensures LastByte(initial, [s0, s1, s2, s3], pa) == Put(s3, pa, Put(s2, pa, Put(s1, pa, Put(s0, pa, initial))))
  {
    LastByteFirst(initial, [s0, s1, s2, s3], pa);
    assert [s0, s1, s2, s3][1..] == [s1, s2, s3];
    LastByteFirst(Put(s0, pa, initial), [s1, s2, s3], pa);
    assert [s1, s2, s3][1..] == [s2, s3];
    LastByteFirst(Put(s1, pa, Put(s0, pa, initial)), [s2, s3], pa);
    assert [s2, s3][1..] == [s3];
    OneByte(Put(s2, pa, Put(s1, pa, Put(s0, pa, initial))), s3, pa);
  }

  /** The bytes of an aligned word have consecutive physical addresses. */
  lemma NextAddr(addr: u32, k: nat)
    requires k < 4 && addr % 4 == 0 && RamAccess(addr, 4)
    ensures addr + k < TWO32 && ProtAddr(addr + k) == ProtAddr(addr) + k && RamAccess(addr + k, 1)
  {
    if IsUnmapped(addr) {
      var q := addr / 0x2000_0000;
      assert addr == 0x2000_0000 * q + addr % 0x2000_0000;
      assert addr % 0x2000_0000 % 4 == addr % 4;
      DivModUnique(addr + k, 0x2000_0000, q, addr % 0x2000_0000 + k);
    }
  }
}
