// Machine words as bounded integers, and the C operators the emulator applies to them.

module Words {

  type byte = x: int | 0 <= x < 0x100
  type u16 = x: int | 0 <= x < 0x1_0000
  type u32 = x: int | 0 <= x < 0x1_0000_0000
  type schar = x: int | -128 <= x < 128

  const TWO32: int := 0x1_0000_0000

  datatype Option<+T> = None | Some(value: T)

  /** Conversion to uint32_t. */
  function Wrap(x: int): u32 {
    x % TWO32
  }

  /** The value of `(int32_t)w`. */
  function Signed(w: u32): int {
    if w < 0x8000_0000 then w else w - TWO32
  }

  function SignedByte(b: byte): int {
    if b < 0x80 then b else b - 0x100
  }

  function SignedHalf(h: u16): int {
    if h < 0x8000 then h else h - 0x1_0000
  }

  function Pow2(n: nat): (p: nat)
    ensures p > 0
  {
    if n == 0 then 1 else 2 * Pow2(n - 1)
  }

  /** Bit k of x. */
  predicate Bit(x: nat, k: nat)
    decreases k
  {
    if k == 0 then x % 2 == 1 else Bit(x / 2, k - 1)
  }

  datatype BitOp = AndOp | OrOp | XorOp | AndNotOp
  {
    predicate On(a: bool, b: bool) {
      match this
      case AndOp => a && b
      case OrOp => a || b
      case XorOp => a != b
      case AndNotOp => a && !b
    }
  }

  /** The n-bit word whose bits are f of the bits of a and b. */
  function Combine(n: nat, f: BitOp, a: nat, b: nat): (r: nat)
    ensures r < Pow2(n)
    decreases n
  {
    if n == 0 then 0
    else 2 * Combine(n - 1, f, a / 2, b / 2) + (if f.On(a % 2 == 1, b % 2 == 1) then 1 else 0)
  }

  /** Every bit of a combined word is the operator on the corresponding bits. */
  lemma {:induction false} CombineBit(n: nat, f: BitOp, a: nat, b: nat, k: nat)
    requires k < n
    ensures Bit(Combine(n, f, a, b), k) == f.On(Bit(a, k), Bit(b, k))
    decreases n
  {
    if k > 0 {
      CombineBit(n - 1, f, a / 2, b / 2, k - 1);
      assert Combine(n, f, a, b) / 2 == Combine(n - 1, f, a / 2, b / 2);
    }
  }

  /** Words with the same bits are the same word. */
  lemma {:induction false} BitsDetermine(n: nat, a: nat, b: nat)
    requires a < Pow2(n) && b < Pow2(n)
    requires forall k: nat | k < n :: Bit(a, k) == Bit(b, k)
    ensures a == b
    decreases n
  {
    if n > 0 {
      assert Bit(a, 0) == Bit(b, 0);
      forall k: nat | k < n - 1 ensures Bit(a / 2, k) == Bit(b / 2, k) {
        assert Bit(a, k + 1) == Bit(b, k + 1);
      }
      BitsDetermine(n - 1, a / 2, b / 2);
    }
  }

  lemma Pow2Values()
    ensures Pow2(8) == 0x100 && Pow2(16) == 0x1_0000 && Pow2(24) == 0x100_0000
    ensures Pow2(29) == 0x2000_0000 && Pow2(32) == TWO32
  {
    assert Pow2(4) == 16;
    Pow2Sum(4, 4);
    Pow2Sum(8, 8);
    Pow2Sum(16, 8);
    Pow2Sum(24, 4);
    Pow2Sum(28, 1);
    Pow2Sum(16, 16);
  }

  lemma {:induction false} Pow2Sum(a: nat, b: nat)
    ensures Pow2(a + b) == Pow2(a) * Pow2(b)
    decreases b
  {
    if b > 0 {
      Pow2Sum(a, b - 1);
    }
  }

  lemma MulSign(d: int, e: int)
    requires d >= 0
    ensures e >= 1 ==> d * e >= d
    ensures e <= -1 ==> d * e <= -d
  {
    if e >= 1 {
      assert d * e == d * (e - 1) + d;
    } else if e <= -1 {
      assert d * e == -(d * (-e - 1)) - d;
    }
  }

  lemma DivModUnique(x: int, d: int, q: int, r: int)
    requires 0 <= r < d && x == d * q + r
    ensures x / d == q && x % d == r
  {
    var q', r' := x / d, x % d;
    assert x == d * q' + r';
    assert d * (q' - q) == d * q' - d * q;
    MulSign(d, q' - q);
  }

  /** `x & (2^k - 1)` keeps the low k bits. */
  lemma {:induction false} LowMask(n: nat, x: nat, k: nat)
    requires k <= n
    ensures Combine(n, AndOp, x, Pow2(k) - 1) == x % Pow2(k)
    decreases n
  {
    if k == 0 {
      AndZero(n, x);
    } else {
      var p := Pow2(k - 1);
      assert Pow2(k) == 2 * p;
      hide Combine;
      hide Pow2;
      MaskStep(n, x, p);
      LowMask(n - 1, x / 2, k - 1);
      HalfMod(x, p);
    }
  }

  lemma MaskStep(n: nat, x: nat, p: int)
    requires n > 0 && p > 0
    ensures Combine(n, AndOp, x, 2 * p - 1) == 2 * Combine(n - 1, AndOp, x / 2, p - 1) + x % 2
  {
    assert (2 * p - 1) / 2 == p - 1 && (2 * p - 1) % 2 == 1;
  }

  /** The remainder modulo a multiple of d has the same remainder modulo d. */
  lemma ModOfMod(x: int, d: int, k: int)
    requires d > 0 && k > 0 && d * k > 0
    ensures x % (d * k) % d == x % d
  {
    var m := d * k;
    var q, r := x / m, x % m;
    assert x == m * q + r;
    assert r == d * (r / d) + r % d;
    assert m * q == d * (k * q);
    assert d * (k * q) + d * (r / d) == d * (k * q + r / d);
    DivModUnique(x, d, k * q + r / d, r % d);
  }

  lemma HalfMod(x: nat, p: int)
    requires p > 0
    ensures x % (2 * p) == 2 * (x / 2 % p) + x % 2
  {
    var h := x / 2;
    assert h == p * (h / p) + h % p;
    DivModUnique(x, 2 * p, h / p, 2 * (h % p) + x % 2);
  }

  lemma {:induction false} AndZero(n: nat, x: nat)
    ensures Combine(n, AndOp, x, 0) == 0
    decreases n
  {
    if n > 0 {
      AndZero(n - 1, x / 2);
    }
  }

  function Bitwise(f: BitOp, a: u32, b: u32): u32 {
    Pow2Values();
    Combine(32, f, a, b)
  }

  function ShiftLeft(a: u32, n: nat): u32 {
    Wrap(a * Pow2(n))
  }

  function ShiftRight(a: u32, n: nat): (r: u32)
  {
    DivLe(a, Pow2(n));
    a / Pow2(n)
  }

  lemma DivLe(a: nat, d: int)
    requires d > 0
    ensures 0 <= a / d <= a
  {
    MulSign(d, a / d);
    if a / d > a {
      MulSign(a / d, d);
    }
  }

  /** `(int32_t)a >> n`, which rounds toward minus infinity. */
  function ShiftRightArith(a: u32, n: nat): u32 {
    Wrap(Signed(a) / Pow2(n))
  }

  /** Little-endian combination of the bytes of s. */
  function Le(s: seq<byte>): (v: nat) {
    if s == [] then 0 else s[0] + 0x100 * Le(s[1..])
  }

  /** The n low bytes of v, least significant first. */
  function LeBytes(v: nat, n: nat): (s: seq<byte>)
    ensures |s| == n
    decreases n
  {
    if n == 0 then [] else [v % 0x100] + LeBytes(v / 0x100, n - 1)
  }

  function At(s: seq<byte>, i: nat): int
    requires i < |s|
  {
    s[i]
  }

  lemma LeUpTo4(s: seq<byte>)
    requires |s| <= 4
    ensures |s| == 1 ==> Le(s) == At(s, 0)
    ensures |s| == 2 ==> Le(s) == At(s, 0) + 0x100 * At(s, 1)
    ensures |s| == 3 ==> Le(s) == At(s, 0) + 0x100 * At(s, 1) + 0x1_0000 * At(s, 2)
    ensures |s| == 4 ==> Le(s) == At(s, 0) + 0x100 * At(s, 1) + 0x1_0000 * At(s, 2) + 0x100_0000 * At(s, 3)
    ensures Le(s) < TWO32
  {
    if |s| >= 1 {
      LeTail(s);
      if |s| >= 2 {
        LeTail(s[1..]);
        if |s| >= 3 {
          LeTail(s[1..][1..]);
          if |s| >= 4 { LeTail(s[1..][1..][1..]); }
        }
      }
    }
  }

  lemma LeTail(s: seq<byte>)
    requires s != []
    ensures Le(s) == At(s, 0) + 0x100 * Le(s[1..])
    ensures forall i: nat | i + 1 < |s| :: At(s[1..], i) == At(s, i + 1)
  {
  }

  lemma LeOfBytes(w: u32)
    ensures Le(LeBytes(w, 4)) == w
  {
    LeBytesIndex(w, 4);
    LeUpTo4(LeBytes(w, 4));
    var q := w / 0x100;
    var q2 := q / 0x100;
    assert w / 0x1_0000 == q2 && w / 0x100_0000 == q2 / 0x100;
    assert w == 0x100 * q + w % 0x100 && q == 0x100 * q2 + q % 0x100 && q2 == 0x100 * (q2 / 0x100) + q2 % 0x100;
  }

  lemma LeBytesIndex(v: nat, n: nat)
    requires n <= 4
    ensures n >= 1 ==> LeBytes(v, n)[0] == v % 0x100
    ensures n >= 2 ==> LeBytes(v, n)[1] == v / 0x100 % 0x100
    ensures n >= 3 ==> LeBytes(v, n)[2] == v / 0x1_0000 % 0x100
    ensures n >= 4 ==> LeBytes(v, n)[3] == v / 0x100_0000 % 0x100
  {
    if n >= 2 {
      assert LeBytes(v / 0x100, n - 1)[0] == v / 0x100 % 0x100;
      if n >= 3 {
        var u := v / 0x100 / 0x100;
        assert LeBytes(u, n - 2)[0] == u % 0x100;
        if n >= 4 {
          assert LeBytes(u / 0x100, n - 3)[0] == u / 0x100 % 0x100;
        }
      }
    }
  }
}
