// What the window shows of the guest's stores: the framebuffer conversion over the board's video memory.

module Screen {
  import opened Words
  import opened Outcomes
  import opened AddressMap
  import opened Ram
  import opened Video
  import opened Board
  import opened Runs
  import opened MemoryAlgebra

  /** The physical address of the cell in row i and column j. */
  function CellAddr(i: nat, j: nat): nat {
    VGA_BASE + 2 * (SCR_W * i + j)
  }

  lemma CellRange(i: nat, j: nat)
    requires i < SCR_H && j < SCR_W
    ensures VGA_BASE <= CellAddr(i, j) && CellAddr(i, j) + 2 <= VGA_BASE + VGA_SIZE
  {
  }

  /** A cell is the halfword of memory at its address. */
  lemma CellIsHalfword(b: BoardState, i: nat, j: nat)
    requires i < SCR_H && j < SCR_W
    ensures Cell(b.vmem, i, j) == Le(RamBytes(b, CellAddr(i, j), 2))
  {
    CellRange(i, j);
    var pa := CellAddr(i, j);
    var s := RamBytes(b, pa, 2);
    LeUpTo4(s);
    hide RamBytes;
    hide Le;
    assert At(s, 0) == RamByte(b, pa) && At(s, 1) == RamByte(b, pa + 1);
  }

  /** After any sequence of stores to memory, a cell holds the halfword last stored at its address, and so
      every window pixel shows its colour. */
  lemma CellAfterStores(mode: Mode, b: BoardState, stores: seq<Store>, batch: bool, x: nat, y: nat)
    requires forall k | 0 <= k < |stores| :: RamAccess(stores[k].addr, stores[k].len)
    requires x < WINDOW_W && y < WINDOW_H
    ensures StoreAll(mode, b, stores, batch).Ok?
    ensures var b', last := StoreAll(mode, b, stores, batch).value, Le(Latest(b, stores, CellAddr(y / 2, x / 2), 2));
            && last < 0x1_0000
            && Cell(b'.vmem, y / 2, x / 2) == last && Render(b'.vmem, x, y) == Convert(last)
  {
    hide StoreAll;
    hide RamAccess;
    hide Convert;
    hide Cell;
    var i, j := y / 2, x / 2;
    CellRange(i, j);
    var b' := StoreAllBytes(mode, b, stores, batch);
    CellIsHalfword(b', i, j);
    LatestBytes(b, b', stores, CellAddr(i, j), 2);
  }

  lemma LatestBytes(b: BoardState, b': BoardState, stores: seq<Store>, pa: int, n: nat)
    requires forall q | InRam(q) :: RamByte(b', q) == LastByte(RamByte(b, q), stores, q)
    requires VGA_BASE <= pa && pa + n <= VGA_BASE + VGA_SIZE
    ensures RamBytes(b', pa, n) == Latest(b, stores, pa, n)
  {
    hide RamByte;
    hide LastByte;
    forall i | 0 <= i < n ensures RamBytes(b', pa, n)[i] == Latest(b, stores, pa, n)[i] {
      assert InRam(pa + i);
    }
  }

  /** One halfword store to a cell, through any alias, paints its two by two block of the window and leaves
      every other pixel alone. */
  lemma PaintCell(mode: Mode, b: BoardState, addr: u32, data: u32, batch: bool, i: nat, j: nat) returns (b': BoardState)
    requires i < SCR_H && j < SCR_W && addr >= 0x1000 && ProtAddr(addr) == CellAddr(i, j)
    ensures StoreMem(mode, b, addr, 2, data, batch) == Ok(b')
    ensures forall x: nat, y: nat | x < WINDOW_W && y < WINDOW_H ::
              Render(b'.vmem, x, y) == if y / 2 == i && x / 2 == j then Convert(data % 0x1_0000) else Render(b.vmem, x, y)
  {
    hide StoreMem;
    hide Convert;
    CellRange(i, j);
    var s := Store(addr, 2, data);
    b' := StoreRam(mode, b, s, batch);
    forall x: nat, y: nat | x < WINDOW_W && y < WINDOW_H
      ensures Render(b'.vmem, x, y) == if y / 2 == i && x / 2 == j then Convert(data % 0x1_0000) else Render(b.vmem, x, y)
    {
      CellRange(y / 2, x / 2);
      PaintedCell(b, b', s, y / 2, x / 2, i, j);
    }
  }

  lemma PaintedCell(b: BoardState, b': BoardState, s: Store, i: nat, j: nat, i': nat, j': nat)
    requires i < SCR_H && j < SCR_W && i' < SCR_H && j' < SCR_W
    requires s.len == 2 && ProtAddr(s.addr) == CellAddr(i', j')
    requires forall pa | InRam(pa) :: RamByte(b', pa) == Put(s, pa, RamByte(b, pa))
    ensures Cell(b'.vmem, i, j) == if i == i' && j == j' then s.data % 0x1_0000 else Cell(b.vmem, i, j)
  {
    hide ProtAddr;
    CellRange(i, j);
    CellIsHalfword(b, i, j);
    CellIsHalfword(b', i, j);
    var pa := CellAddr(i, j);
    var u, v := RamBytes(b, pa, 2), RamBytes(b', pa, 2);
    hide RamBytes;
    LeUpTo4(u);
    LeUpTo4(v);
    hide Le;
    hide Cell;
    assert At(v, 0) == Put(s, pa, RamByte(b, pa)) && At(v, 1) == Put(s, pa + 1, RamByte(b, pa + 1));
    assert At(u, 0) == RamByte(b, pa) && At(u, 1) == RamByte(b, pa + 1);
    SameCell(i, j, i', j');
    LowHalf(s.data);
  }

  lemma SameCell(i: nat, j: nat, i': nat, j': nat)
    requires j < SCR_W && j' < SCR_W
    ensures CellAddr(i, j) == CellAddr(i', j') <==> i == i' && j == j'
  {
    DivModUnique(SCR_W * i + j, SCR_W, i, j);
    DivModUnique(SCR_W * i' + j', SCR_W, i', j');
  }

  lemma LowHalf(data: u32)
    ensures data % 0x100 + 0x100 * (data / 0x100 % 0x100) == data % 0x1_0000
  {
    var q := data / 0x100;
    assert data == 0x100 * q + data % 0x100;
    assert q == 0x100 * (q / 0x100) + q % 0x100;
    DivModUnique(data, 0x1_0000, q / 0x100, 0x100 * (q % 0x100) + data % 0x100);
  }
}
