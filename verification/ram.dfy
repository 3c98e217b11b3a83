// Byte buffers: the fast handlers of cpu-exec.c and the masked word accesses of device.h.

module Ram {
  import opened Words

  type alen = x: int | 1 <= x <= 4 witness 1

  /** buf with bytes written at off: the effect of memcpy. */
  function Splice(buf: seq<byte>, off: nat, bytes: seq<byte>): (r: seq<byte>)
    requires off + |bytes| <= |buf|
    ensures |r| == |buf|
    ensures forall i | 0 <= i < |buf| :: r[i] == if off <= i < off + |bytes| then bytes[i - off] else buf[i]
  {
    buf[..off] + bytes + buf[off + |bytes|..]
  }

  /** read_handler */
  function ReadHandler(p: seq<byte>, off: nat, len: alen): u32
    requires off + len <= |p|
  {
    if len == 1 then p[off]
    else if len == 2 then 0x100 * At(p, off + 1) + At(p, off)
    else if len == 3 then 0x1_0000 * At(p, off + 2) + 0x100 * At(p, off + 1) + At(p, off)
    else 0x100_0000 * At(p, off + 3) + 0x1_0000 * At(p, off + 2) + 0x100 * At(p, off + 1) + At(p, off)
  }

  /** write_handler */
  function WriteHandlerBytes(p: seq<byte>, off: nat, len: alen, data: u32): (r: seq<byte>)
    requires off + len <= |p|
    ensures |r| == |p|
  {
    if len == 1 then p[off := data % 0x100]
    else if len == 2 then p[off := data % 0x100][off + 1 := data / 0x100 % 0x100]
    else if len == 3 then
      p[off := data % 0x100][off + 1 := data / 0x100 % 0x100][off + 2 := data / 0x1_0000 % 0x100]
    else
      p[off := data % 0x100][off + 1 := data / 0x100 % 0x100][off + 2 := data / 0x1_0000 % 0x100]
       [off + 3 := data / 0x100_0000 % 0x100]
  }

  /** The four-byte host word at off.  The host reads whole words, so near the end of buf it sees
      up to three bytes of whatever follows buf in memory: slack. */
  function HostWord(buf: seq<byte>, off: nat, slack: seq<byte>): u32
    requires off < |buf| && |slack| == 3
  {
    LeUpTo4((buf + slack)[off..off + 4]);
    Le((buf + slack)[off..off + 4])
  }

  /** read_masked_word */
  function ReadMaskedWord(buf: seq<byte>, off: nat, len: alen, slack: seq<byte>): u32
    requires off < |buf| && |slack| == 3
  {
    Bitwise(AndOp, HostWord(buf, off, slack), ShiftRight(0xFFFF_FFFF, 8 * (4 - len)))
  }

  lemma MaskValue(len: alen)
    ensures ShiftRight(0xFFFF_FFFF, 8 * (4 - len)) == Pow2(8 * len) - 1
    ensures len == 1 ==> Pow2(8 * len) == 0x100
    ensures len == 2 ==> Pow2(8 * len) == 0x1_0000
    ensures len == 3 ==> Pow2(8 * len) == 0x100_0000
    ensures len == 4 ==> Pow2(8 * len) == TWO32
  {
    Pow2Values();
    assert Pow2(0) == 1;
  }

  /** Inside the buffer, the masked word read is the byte-wise handler read: the mask removes every
      byte past len, including those past the end of the buffer. */
  lemma MaskedReadIsHandlerRead(buf: seq<byte>, off: nat, len: alen, slack: seq<byte>)
    requires off + len <= |buf| && |slack| == 3
    ensures ReadMaskedWord(buf, off, len, slack) == ReadHandler(buf, off, len)
  {
    MaskValue(len);
    LowMask(32, HostWord(buf, off, slack), 8 * len);
    HostWordLow(buf, off, len, slack);
  }

  lemma HostWordLow(buf: seq<byte>, off: nat, len: alen, slack: seq<byte>)
    requires off + len <= |buf| && |slack| == 3
    ensures HostWord(buf, off, slack) % Pow2(8 * len) == ReadHandler(buf, off, len)
  {
    MaskValue(len);
    var s := (buf + slack)[off..off + 4];
    LeUpTo4(s);
    LowBytes(At(s, 0), At(s, 1), At(s, 2), At(s, 3));
    assert At(s, 0) == At(buf, off);
    if len >= 2 { assert At(s, 1) == At(buf, off + 1); }
    if len >= 3 { assert At(s, 2) == At(buf, off + 2); }
    if len >= 4 { assert At(s, 3) == At(buf, off + 3); }
  }

  lemma LowBytes(b0: int, b1: int, b2: int, b3: int)
    requires 0 <= b0 < 0x100 && 0 <= b1 < 0x100 && 0 <= b2 < 0x100 && 0 <= b3 < 0x100
    ensures var w := b0 + 0x100 * b1 + 0x1_0000 * b2 + 0x100_0000 * b3;
            && w % 0x100 == b0
            && w % 0x1_0000 == b0 + 0x100 * b1
            && w % 0x100_0000 == b0 + 0x100 * b1 + 0x1_0000 * b2
            && w % TWO32 == w
  {
    var w := b0 + 0x100 * b1 + 0x1_0000 * b2 + 0x100_0000 * b3;
    DivModUnique(w, 0x100, b1 + 0x100 * b2 + 0x1_0000 * b3, b0);
    DivModUnique(w, 0x1_0000, b2 + 0x100 * b3, b0 + 0x100 * b1);
    DivModUnique(w, 0x100_0000, b3, b0 + 0x100 * b1 + 0x1_0000 * b2);
  }

  /** The handler read is the little-endian value of the bytes. */
  lemma HandlerReadIsLe(p: seq<byte>, off: nat, len: alen)
    requires off + len <= |p|
    ensures ReadHandler(p, off, len) == Le(p[off..off + len])
  {
    var s := p[off..off + len];
    LeUpTo4(s);
    assert At(s, 0) == At(p, off);
    if len >= 2 { assert At(s, 1) == At(p, off + 1); }
    if len >= 3 { assert At(s, 2) == At(p, off + 2); }
    if len >= 4 { assert At(s, 3) == At(p, off + 3); }
  }

  /** The handler write is a memcpy of the low bytes of data. */
  lemma HandlerWriteIsSplice(p: seq<byte>, off: nat, len: alen, data: u32)
    requires off + len <= |p|
    ensures WriteHandlerBytes(p, off, len, data) == Splice(p, off, LeBytes(data, len))
  {
    LeBytesIndex(data, len);
    var a, b := WriteHandlerBytes(p, off, len, data), Splice(p, off, LeBytes(data, len));
    forall i | 0 <= i < |p| ensures a[i] == b[i] {
    }
  }

  /** memcpy into a guest buffer. */
  method MemCpy(dst: array<byte>, off: nat, src: seq<byte>)
    requires off + |src| <= dst.Length
    modifies dst
    ensures dst[..] == Splice(old(dst[..]), off, src)
  {
    var i := 0;
    while i < |src|
      invariant 0 <= i <= |src|
      invariant forall k | 0 <= k < dst.Length ::
          dst[k] == if off <= k < off + i then src[k - off] else old(dst[k])
    {
      dst[off + i] := src[i];
      i := i + 1;
    }
  }

  /** memset of a guest buffer to zero. */
  method MemZero(dst: array<byte>, off: nat, n: nat)
    requires off + n <= dst.Length
    modifies dst
    ensures dst[..] == Splice(old(dst[..]), off, Zeros(n))
  {
    var i := 0;
    while i < n
      invariant 0 <= i <= n
      invariant forall k | 0 <= k < dst.Length ::
          dst[k] == if off <= k < off + i then 0 else old(dst[k])
    {
      dst[off + i] := 0;
      i := i + 1;
    }
  }

  function Zeros(n: nat): (s: seq<byte>)
    ensures |s| == n
  {
    seq(n, _ => 0)
  }

  method WriteHandler(p: array<byte>, off: nat, len: alen, data: u32)
    requires off + len <= p.Length
    modifies p
    ensures p[..] == WriteHandlerBytes(old(p[..]), off, len, data)
  {
    p[off] := data % 0x100;
    if len >= 2 { p[off + 1] := data / 0x100 % 0x100; }
    if len >= 3 { p[off + 2] := data / 0x1_0000 % 0x100; }
    if len >= 4 { p[off + 3] := data / 0x100_0000 % 0x100; }
  }
}
