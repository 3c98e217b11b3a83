// The memory-mapped regions (src/memory.c, include/device.h) and the kseg aliases
// (include/memory.h).

module AddressMap {
  import opened Words

  const BADP_ADDR: int := 0x1fe9_6000
  const BADP_SIZE: int := 0x1000
  const DDR_BASE: int := 0
  const DDR_SIZE: int := 0x800_0000
  const BRAM_BASE: int := 0x1fc0_0000
  const BRAM_SIZE: int := 0x10_0000
  const GPIO_BASE: int := 0x1000_0000
  const GPIO_SIZE: int := 0x1000
  const SERIAL_ADDR: int := 0x1fe5_0000
  const SERIAL_SIZE: int := 0x10
  const MAC_ADDR: int := 0x1ff0_0000
  const MAC_SIZE: int := 0x1_0000
  const VGA_BASE: int := 0x1040_0000
  const VGA_SIZE: int := 0x10_0000

  datatype Device = BadP | Ddr | Bram | Gpio | Serial | Mac | Vga

  datatype Region = Region(start: u32, end: u32, dev: Device)
  {
    predicate Contains(addr: int) {
      start <= addr < end
    }
  }

  const MMAP: seq<Region> := [
    Region(BADP_ADDR, BADP_ADDR + BADP_SIZE, BadP),
    Region(DDR_BASE, DDR_BASE + DDR_SIZE, Ddr),
    Region(BRAM_BASE, BRAM_BASE + BRAM_SIZE, Bram),
    Region(GPIO_BASE, GPIO_BASE + GPIO_SIZE, Gpio),
    Region(SERIAL_ADDR, SERIAL_ADDR + SERIAL_SIZE, Serial),
    Region(MAC_ADDR, MAC_ADDR + MAC_SIZE, Mac),
    Region(VGA_BASE, VGA_BASE + VGA_SIZE, Vga)
  ]

  /** First row of the table, from row i on, that contains addr. */
  function LookupFrom(table: seq<Region>, i: nat, addr: u32): (r: Option<Region>)
    requires i <= |table|
    ensures r.Some? ==> r.value.Contains(addr) && exists k :: i <= k < |table| && table[k] == r.value
    ensures r.None? ==> forall k | i <= k < |table| :: !table[k].Contains(addr)
    decreases |table| - i
  {
    if i == |table| then None
    else if table[i].Contains(addr) then Some(table[i])
    else LookupFrom(table, i + 1, addr)
  }

  function Lookup(table: seq<Region>, addr: u32): Option<Region> {
    LookupFrom(table, 0, addr)
  }

  /** find_region: the index of the first row that contains addr, or -1. */
  method FindRegion(table: seq<Region>, addr: u32) returns (ret: int)
    ensures -1 <= ret < |table|
    ensures ret == -1 ==> forall k | 0 <= k < |table| :: !table[k].Contains(addr)
    ensures ret >= 0 ==> table[ret].Contains(addr) && forall k | 0 <= k < ret :: !table[k].Contains(addr)
    ensures Lookup(table, addr) == if ret == -1 then None else Some(table[ret])
  {
    ret := -1;
    var i := 0;
    while i < |table|
      invariant 0 <= i <= |table|
      invariant forall k | 0 <= k < i :: !table[k].Contains(addr)
      invariant Lookup(table, addr) == LookupFrom(table, i, addr)
    {
      if addr >= table[i].start && addr < table[i].end {
        return i;
      }
      i := i + 1;
    }
  }

  function RegionCollide(x: u32, y: u32, a: u32, b: u32): bool {
    (x <= a && a < y) || (x < b && b <= y) || (a <= x && y <= b)
  }

  ghost predicate Intersect(r: Region, s: Region) {
    exists addr: int :: r.Contains(addr) && s.Contains(addr)
  }

  /** For nonempty ranges, the three-way test finds exactly the ranges that share an address. */
  lemma CollideIffIntersect(r: Region, s: Region)
    requires r.start < r.end && s.start < s.end
    ensures RegionCollide(r.start, r.end, s.start, s.end) <==> Intersect(r, s)
  {
    if RegionCollide(r.start, r.end, s.start, s.end) {
      var addr := if r.start <= s.start then s.start else r.start;
      assert r.Contains(addr) && s.Contains(addr);
    }
  }

  ghost predicate Apart(table: seq<Region>) {
    forall i, j | 0 <= i < j < |table| :: !Intersect(table[i], table[j])
  }

  predicate Nonempty(table: seq<Region>) {
    forall i | 0 <= i < |table| :: table[i].start < table[i].end
  }

  /** init_mmio: false when one of its assertions fails. */
  method InitMmio(table: seq<Region>) returns (ok: bool)
    requires Nonempty(table)
    ensures ok <==> Apart(table)
  {
    var i := 0;
    while i < |table|
      invariant 0 <= i <= |table|
      invariant forall p, q | 0 <= p < i && p < q < |table| :: !Intersect(table[p], table[q])
    {
      var j := i + 1;
      while j < |table|
        invariant i < j <= |table|
        invariant forall q | i < q < j :: !Intersect(table[i], table[q])
      {
        CollideIffIntersect(table[i], table[j]);
        if RegionCollide(table[i].start, table[i].end, table[j].start, table[j].end) {
          return false;
        }
        j := j + 1;
      }
      i := i + 1;
    }
    return true;
  }

  /** A table that passes init_mmio has at most one row for any address, so the row found is
      the only one and does not depend on the order of the table. */
  lemma LookupOrderIndependent(t1: seq<Region>, t2: seq<Region>, addr: u32)
    requires Apart(t1)
    requires forall r: Region :: r in t1 <==> r in t2
    ensures Lookup(t1, addr) == Lookup(t2, addr)
    ensures forall i, j | 0 <= i < |t1| && 0 <= j < |t1| && t1[i].Contains(addr) && t1[j].Contains(addr) :: i == j
  {
    forall i, j | 0 <= i < |t1| && 0 <= j < |t1| && t1[i].Contains(addr) && t1[j].Contains(addr)
      ensures i == j
    {
      if i < j {
        assert Intersect(t1[i], t1[j]);
      } else if j < i {
        assert Intersect(t1[j], t1[i]);
      }
    }
    var a, b := Lookup(t1, addr), Lookup(t2, addr);
    if a.Some? {
      var i :| 0 <= i < |t1| && t1[i] == a.value;
      assert a.value in t2;
    }
    if b.Some? {
      assert b.value in t1;
      var j :| 0 <= j < |t1| && t1[j] == b.value;
      assert t1[j].Contains(addr);
    }
  }

  /** The emulator's own table passes init_mmio. */
  lemma MmapApart()
    ensures Nonempty(MMAP) && Apart(MMAP)
  {
    forall i, j | 0 <= i < j < |MMAP| ensures !Intersect(MMAP[i], MMAP[j]) {
      assert MMAP[i].end <= MMAP[j].start || MMAP[j].end <= MMAP[i].start;
    }
  }

  predicate InDdr(pa: int) { DDR_BASE <= pa < DDR_BASE + DDR_SIZE }

  predicate InBram(pa: int) { BRAM_BASE <= pa < BRAM_BASE + BRAM_SIZE }

  predicate InVga(pa: int) { VGA_BASE <= pa < VGA_BASE + VGA_SIZE }

  lemma VgaRow(pa: u32)
    requires InVga(pa)
    ensures Lookup(MMAP, pa) == Some(MMAP[6])
  {
    assert MMAP[6].Contains(pa) && MMAP[6] in MMAP;
  }

  /** The table lookup spelled out. */
  lemma MmapCases(pa: u32)
    ensures InDdr(pa) ==> Lookup(MMAP, pa) == Some(MMAP[1])
    ensures InBram(pa) ==> Lookup(MMAP, pa) == Some(MMAP[2])
    ensures Lookup(MMAP, pa).Some? ==> Lookup(MMAP, pa).value in MMAP
  {
    var found := Lookup(MMAP, pa);
    if InDdr(pa) {
      assert MMAP[1].Contains(pa) && MMAP[1] in MMAP;
    } else if InBram(pa) {
      assert MMAP[2].Contains(pa) && MMAP[2] in MMAP;
    }
    if found.Some? {
      assert found.value in MMAP;
    }
  }

  predicate IsUnmapped(addr: u32) { 0x8000_0000 <= addr < 0xC000_0000 }

  function IoMap(vaddr: u32): u32 { vaddr % 0x2000_0000 }

  /** iomap is the mask with 0x1FFFFFFF. */
  lemma IoMapMask(vaddr: u32)
    ensures IoMap(vaddr) == Bitwise(AndOp, vaddr, 0x1FFF_FFFF)
  {
    Pow2Values();
    LowMask(32, vaddr, 29);
  }

  /** kseg0 and kseg1 addresses are physical addresses with the segment bits dropped. */
  function ProtAddr(addr: u32): u32 {
    if IsUnmapped(addr) then IoMap(addr) else addr
  }

  /** The three names of a physical byte below 512 MB. */
  lemma Aliases(pa: u32)
    requires pa < 0x2000_0000
    ensures ProtAddr(pa) == pa && ProtAddr(0x8000_0000 + pa) == pa && ProtAddr(0xA000_0000 + pa) == pa
  {
  }
}
