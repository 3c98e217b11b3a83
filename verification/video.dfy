// The framebuffer (src/dev/video.c): each 16-bit cell of the 400 by 300 guest screen becomes a two by two
// block of the 800 by 600 window.

module Video {
  import opened Words

  const SCR_W: int := 400
  const SCR_H: int := 300
  const WINDOW_W: int := 800
  const WINDOW_H: int := 600
  const VMEM_SIZE: int := 4 * WINDOW_H * WINDOW_W

  /** RGB_M12_to_M32: the three colour nibbles spread over three bytes, fully opaque. */
  function Convert(color: u16): u32 {
    0xFF00_0000 + 0x10_0000 * (color / 0x100 % 16) + 0x1000 * (color / 0x10 % 16) + 0x10 * (color % 16)
  }

  /** The 12-bit colour a pixel shows. */
  function Recover(pixel: u32): nat {
    0x100 * (pixel / 0x10_0000 % 16) + 0x10 * (pixel / 0x1000 % 16) + pixel / 0x10 % 16
  }

  /** The uint16_t cell in row i and column j. */
  function Cell(vmem: seq<byte>, i: nat, j: nat): u16
    requires |vmem| == VMEM_SIZE && i < SCR_H && j < SCR_W
  {
    At(vmem, 2 * (SCR_W * i + j)) + 0x100 * At(vmem, 2 * (SCR_W * i + j) + 1)
  }

  /** The colour of window pixel (x, y). */
  function Render(vmem: seq<byte>, x: nat, y: nat): u32
    requires |vmem| == VMEM_SIZE && x < WINDOW_W && y < WINDOW_H
  {
    Convert(Cell(vmem, y / 2, x / 2))
  }

  lemma NibblesOf(r: nat, g: nat, b: nat)
    requires r < 16 && g < 16 && b < 16
    ensures Recover(0xFF00_0000 + 0x10_0000 * r + 0x1000 * g + 0x10 * b) == 0x100 * r + 0x10 * g + b
  {
    var p := 0xFF00_0000 + 0x10_0000 * r + 0x1000 * g + 0x10 * b;
    DivModUnique(p, 0x10_0000, 0xFF0 + r, 0x1000 * g + 0x10 * b);
    DivModUnique(p, 0x1000, 0xF_F000 + 0x100 * r + g, 0x10 * b);
    DivModUnique(p, 0x10, 0xFF0_0000 + 0x1_0000 * r + 0x100 * g + b, 0);
  }

  /** The conversion loses only the top nibble. */
  lemma ColourRecoverable(color: u16)
    ensures Recover(Convert(color)) == color % 0x1000
  {
    var r, g, b := color / 0x100 % 16, color / 0x10 % 16, color % 16;
    NibblesOf(r, g, b);
    var h := color / 0x10;
    assert color / 0x100 == h / 0x10;
    assert color == 0x10 * h + b && h == 0x10 * (h / 0x10) + g;
    var t := h / 0x10;
    assert t == 16 * (t / 16) + r;
    DivModUnique(color, 0x1000, t / 16, 0x100 * r + 0x10 * g + b);
  }

  /** The four bytes of a pixel: opaque, then each colour nibble in the high half of its byte. */
  lemma PixelBytes(color: u16)
    ensures var p := Convert(color);
            && p / 0x100_0000 == 0xFF
            && p / 0x1_0000 % 0x100 == 0x10 * (color / 0x100 % 16)
            && p / 0x100 % 0x100 == 0x10 * (color / 0x10 % 16)
            && p % 0x100 == 0x10 * (color % 16)
  {
    var r, g, b := color / 0x100 % 16, color / 0x10 % 16, color % 16;
    var p := Convert(color);
    DivModUnique(p, 0x100_0000, 0xFF, 0x10_0000 * r + 0x1000 * g + 0x10 * b);
    DivModUnique(p, 0x1_0000, 0xFF00 + 0x10 * r, 0x1000 * g + 0x10 * b);
    DivModUnique(0xFF00 + 0x10 * r, 0x100, 0xFF, 0x10 * r);
    DivModUnique(p, 0x100, 0xFF_0000 + 0x1000 * r + 0x10 * g, 0x10 * b);
    DivModUnique(0xFF_0000 + 0x1000 * r + 0x10 * g, 0x100, 0xFF00 + 0x10 * r, 0x10 * g);
  }

  lemma ConvertLow12(a: u16, b: u16)
    ensures Convert(a) == Convert(b) <==> a % 0x1000 == b % 0x1000
  {
    ColourRecoverable(a);
    ColourRecoverable(b);
    if a % 0x1000 == b % 0x1000 {
      LowNibbles(a);
      LowNibbles(b);
    }
  }

  lemma LowNibbles(a: u16)
    ensures var l := a % 0x1000;
            a / 0x100 % 16 == l / 0x100 && a / 0x10 % 16 == l / 0x10 % 16 && a % 16 == l % 16
  {
    var l, q := a % 0x1000, a / 0x1000;
    assert a == 0x1000 * q + l;
    DivModUnique(a, 0x100, 16 * q + l / 0x100, l % 0x100);
    DivModUnique(a, 0x10, 256 * q + l / 0x10, l % 0x10);
    DivModUnique(16 * q + l / 0x100, 16, q, l / 0x100);
    DivModUnique(256 * q + l / 0x10, 16, 16 * q + l / 0x100, l / 0x10 % 16);
  }

  /** Two frames look the same exactly when all low-12-bit colours agree. */
  lemma FramesEqualIff(u: seq<byte>, v: seq<byte>)
    requires |u| == VMEM_SIZE && |v| == VMEM_SIZE
    ensures (forall x: nat, y: nat | x < WINDOW_W && y < WINDOW_H :: Render(u, x, y) == Render(v, x, y))
            <==> (forall i: nat, j: nat | i < SCR_H && j < SCR_W :: Cell(u, i, j) % 0x1000 == Cell(v, i, j) % 0x1000)
  {
    if forall x: nat, y: nat | x < WINDOW_W && y < WINDOW_H :: Render(u, x, y) == Render(v, x, y) {
      forall i: nat, j: nat | i < SCR_H && j < SCR_W ensures Cell(u, i, j) % 0x1000 == Cell(v, i, j) % 0x1000 {
        assert Render(u, 2 * j, 2 * i) == Render(v, 2 * j, 2 * i);
        ConvertLow12(Cell(u, i, j), Cell(v, i, j));
      }
    }
    if forall i: nat, j: nat | i < SCR_H && j < SCR_W :: Cell(u, i, j) % 0x1000 == Cell(v, i, j) % 0x1000 {
      forall x: nat, y: nat | x < WINDOW_W && y < WINDOW_H ensures Render(u, x, y) == Render(v, x, y) {
        ConvertLow12(Cell(u, y / 2, x / 2), Cell(v, y / 2, x / 2));
      }
    }
  }

  /** Pixel (x, y) belongs to a cell before row i, column j. */
  predicate Before(x: int, y: int, i: int, j: int) {
    0 <= x < WINDOW_W && 0 <= y < WINDOW_H && (y / 2 < i || (y / 2 == i && x / 2 < j))
  }

  /** draw_pixel.  drawn is the set of pixels already written: no pixel is written twice. */
  method DrawPixel(pixels: array2<u32>, x: int, y: int, color: u16, ghost drawn: set<(int, int)>)
    returns (ghost drawn': set<(int, int)>)
    requires pixels.Length0 == WINDOW_H && pixels.Length1 == WINDOW_W
    requires 0 <= x < WINDOW_W && 0 <= y < WINDOW_H && (x, y) !in drawn
    modifies pixels
    ensures drawn' == drawn + {(x, y)}
    ensures pixels[y, x] == Convert(color)
    ensures forall a, b | 0 <= a < WINDOW_H && 0 <= b < WINDOW_W && !(a == y && b == x) :: pixels[a, b] == old(pixels[a, b])
  {
    pixels[y, x] := Convert(color);
    drawn' := drawn + {(x, y)};
  }

  /** The pixels drawn so far show the cells before (i, j). */
  ghost predicate Shown(pixels: array2<u32>, vmem: seq<byte>, drawn: set<(int, int)>, i: int, j: int)
    requires |vmem| == VMEM_SIZE && pixels.Length0 == WINDOW_H && pixels.Length1 == WINDOW_W
    reads pixels
  {
    && (forall x, y :: (x, y) in drawn <==> Before(x, y, i, j))
    && (forall x, y | Before(x, y, i, j) :: pixels[y, x] == Render(vmem, x, y))
  }

  /** The four draws of one cell. */
  method DrawCell(pixels: array2<u32>, vmem: array<byte>, i: nat, j: nat, ghost drawn: set<(int, int)>)
    returns (ghost drawn': set<(int, int)>)
    requires vmem.Length == VMEM_SIZE && pixels.Length0 == WINDOW_H && pixels.Length1 == WINDOW_W
    requires i < SCR_H && j < SCR_W && Shown(pixels, vmem[..], drawn, i, j)
    modifies pixels
    ensures Shown(pixels, vmem[..], drawn', i, j + 1)
  {
    var color := Cell(vmem[..], i, j);
    ghost var d := DrawPixel(pixels, 2 * j, 2 * i, color, drawn);
    d := DrawPixel(pixels, 2 * j, 2 * i + 1, color, d);
    d := DrawPixel(pixels, 2 * j + 1, 2 * i, color, d);
    d := DrawPixel(pixels, 2 * j + 1, 2 * i + 1, color, d);
    drawn' := d;
    forall x, y ensures Before(x, y, i, j + 1) <==>
        Before(x, y, i, j) || (2 * j <= x <= 2 * j + 1 && 2 * i <= y <= 2 * i + 1)
    {
    }
  }

  /** update_screen: afterwards every window pixel shows its cell, and each was written exactly once. */
  method UpdateScreen(vmem: array<byte>, pixels: array2<u32>) returns (ghost drawn: set<(int, int)>)
    requires vmem.Length == VMEM_SIZE && pixels.Length0 == WINDOW_H && pixels.Length1 == WINDOW_W
    modifies pixels
    ensures forall x: nat, y: nat | x < WINDOW_W && y < WINDOW_H :: pixels[y, x] == Render(vmem[..], x, y)
    ensures forall x, y :: (x, y) in drawn <==> 0 <= x < WINDOW_W && 0 <= y < WINDOW_H
  {
    drawn := {};
    var i := 0;
    while i < SCR_H
      invariant 0 <= i <= SCR_H
      invariant Shown(pixels, vmem[..], drawn, i, 0)
    {
      var j := 0;
      while j < SCR_W
        invariant 0 <= j <= SCR_W
        invariant Shown(pixels, vmem[..], drawn, i, j)
      {
        drawn := DrawCell(pixels, vmem, i, j, drawn);
        j := j + 1;
      }
      forall x, y ensures Before(x, y, i, SCR_W) <==> Before(x, y, i + 1, 0) {
      }
      i := i + 1;
    }
    forall x, y ensures Before(x, y, SCR_H, 0) <==> 0 <= x < WINDOW_W && 0 <= y < WINDOW_H {
    }
  }
}
