// The UART (src/dev/serial.c): receive ring, key-state table and register accesses.

module Uart {
  import opened Words
  import AddressMap

  const QLEN: int := 1024
  // SDLK_LAST of the SDL 1.2 keysym header.
  const SDLK_LAST: int := 323
  const CAPACITY: int := QLEN - 1

  const UARTLITE_RX: int := 0x0
  const UARTLITE_TX: int := 0x4
  const UARTLITE_STAT: int := 0x8
  const UARTLITE_CTRL: int := 0xC

  type qidx = x: int | 0 <= x < QLEN
  type Cells = s: seq<schar> | |s| == QLEN witness seq(QLEN, _ => 0)
  type KeyStates = s: seq<bool> | |s| == SDLK_LAST witness seq(SDLK_LAST, _ => false)
  // A NUL-terminated string, without its terminator.
  type Text = seq<schar>

  function Min(a: int, b: int): int {
    if a < b then a else b
  }

  datatype Ring = Ring(cells: Cells, f: qidx, r: qidx)
  {
    /** The characters waiting to be read, oldest first. */
    function Contents(): (s: seq<schar>)
      ensures |s| == if f <= r then r - f else r - f + QLEN
      ensures |s| <= CAPACITY
    {
      if f <= r then cells[f..r] else cells[f..] + cells[..r]
    }

    predicate Full() {
      (r + 1) % QLEN == f
    }

    /** serial_enqueue_ascii */
    function Push(ch: schar): Ring {
      var next := (r + 1) % QLEN;
      if next != f then Ring(cells[r := ch], f, next) else this
    }

    /** The copying loop of serial_enqueue. */
    function Offer(text: Text): Ring
      decreases |text|
    {
      if text == [] || Full() then this else Push(text[0]).Offer(text[1..])
    }

    function Advance(): Ring {
      Ring(cells, (f + 1) % QLEN, r)
    }
  }

  lemma FullIsCapacity(q: Ring)
    ensures q.Full() <==> |q.Contents()| == CAPACITY
  {
    if q.r == QLEN - 1 {
      assert (q.r + 1) % QLEN == 0;
    } else {
      assert (q.r + 1) % QLEN == q.r + 1;
    }
  }

  /** A push appends unless the ring holds 1023 characters. */
  lemma PushAppends(q: Ring, ch: schar)
    ensures q.Push(ch).Contents() == if |q.Contents()| < CAPACITY then q.Contents() + [ch] else q.Contents()
    ensures q.Push(ch).f == q.f
  {
    FullIsCapacity(q);
    if !q.Full() {
      var p := q.Push(ch);
      if q.r == QLEN - 1 {
        assert p.r == 0;
        assert p.cells[q.f..] == q.cells[q.f..QLEN - 1] + [ch];
      } else {
        assert p.r == q.r + 1;
        if q.f <= q.r {
          assert p.cells[q.f..p.r] == q.cells[q.f..q.r] + [ch];
        } else {
          assert p.cells[q.f..] == q.cells[q.f..];
          assert p.cells[..p.r] == q.cells[..q.r] + [ch];
        }
      }
    }
  }

  /** The part of text that fits. */
  function Fits(q: Ring, text: Text): Text {
    text[..Min(|text|, CAPACITY - |q.Contents()|)]
  }

  /** An offer appends exactly the longest prefix that fits. */
  lemma {:induction false} OfferAppends(q: Ring, text: Text)
    ensures q.Offer(text).Contents() == q.Contents() + Fits(q, text)
    ensures q.Offer(text).f == q.f
    decreases |text|
  {
    FullIsCapacity(q);
    hide Ring.Contents;
    hide Ring.Full;
    hide Ring.Push;
    if text != [] && !q.Full() {
      var p := q.Push(text[0]);
      PushAppends(q, text[0]);
      OfferAppends(p, text[1..]);
      assert Fits(q, text) == [text[0]] + Fits(p, text[1..]);
    }
  }

  /** Advancing removes the oldest character. */
  lemma AdvanceDrops(q: Ring)
    requires q.f != q.r
    ensures q.Contents() != [] && q.Contents()[0] == q.cells[q.f]
    ensures q.Advance().Contents() == q.Contents()[1..]
  {
    if q.f == QLEN - 1 {
      assert q.Advance().f == 0;
    } else {
      assert q.Advance().f == q.f + 1;
    }
  }

  datatype UartState = UartState(ring: Ring, ctrl: u32, keys: KeyStates, tx: seq<byte>)

  function UartInit(): UartState {
    UartState(Ring(seq(QLEN, _ => 0), 0, 0), 0, seq(SDLK_LAST, _ => false), [])
  }

  datatype EventType = KeyDown | KeyUp | OtherType
  datatype KeyEvent = KeyEvent(kind: EventType, key: int)

  predicate InRange(key: int) { 0 <= key < SDLK_LAST }

  /** serial_enqueue */
  function SerialEnqueue(u: UartState, ev: KeyEvent, ascii: int -> Text): UartState {
    if !InRange(ev.key) then u
    else if ev.kind == KeyDown && u.keys[ev.key] then u
    else if ev.kind == KeyUp then u.(keys := u.keys[ev.key := false])
    else
      u.(keys := if ev.kind == KeyDown then u.keys[ev.key := true] else u.keys,
         ring := u.ring.Offer(ascii(ev.key)))
  }

  /** serial_peek; None is a failed assertion. */
  function SerialPeek(u: UartState, addr: nat): Option<u32> {
    if addr > AddressMap.SERIAL_SIZE then None
    else if addr == UARTLITE_RX then Some(Wrap(u.ring.cells[u.ring.f]))
    else if addr == UARTLITE_STAT then Some(if u.ring.f == u.ring.r then 0 else 1)
    else if addr == UARTLITE_CTRL then Some(u.ctrl)
    else None
  }

  /** serial_read */
  function SerialRead(u: UartState, addr: nat): Option<(UartState, u32)> {
    var data := SerialPeek(u, addr);
    if data.None? then None
    else if addr == UARTLITE_RX && u.ring.f != u.ring.r then Some((u.(ring := u.ring.Advance()), data.value))
    else Some((u, data.value))
  }

  /** serial_write; transmitted characters are appended to tx. */
  function SerialWrite(u: UartState, addr: nat, data: u32): Option<UartState> {
    if addr > AddressMap.SERIAL_SIZE then None
    else if addr == UARTLITE_TX then Some(u.(tx := u.tx + [data % 0x100]))
    else if addr == UARTLITE_CTRL then Some(u.(ctrl := data))
    else None
  }

  class SerialPort {
    const queue: array<schar>
    var f: qidx
    var r: qidx
    const sdlkState: array<bool>
    var ctrl: u32
    var tx: seq<byte>
    ghost const Repr: set<object>

    ghost predicate Valid() {
      && Repr == {this, queue, sdlkState}
      && queue.Length == QLEN && sdlkState.Length == SDLK_LAST
    }

    ghost function View(): UartState
      requires Valid()
      reads Repr
    {
      UartState(Ring(queue[..], f, r), ctrl, sdlkState[..], tx)
    }

    constructor ()
      ensures Valid() && fresh(Repr)
      ensures View() == UartInit()
    {
      var q := new schar[QLEN](_ => 0);
      var k := new bool[SDLK_LAST](_ => false);
      queue, sdlkState := q, k;
      f, r, ctrl, tx := 0, 0, 0, [];
      Repr := {this, q, k};
      new;
      assert queue[..] == seq(QLEN, _ => 0);
      assert sdlkState[..] == seq(SDLK_LAST, _ => false);
    }

    method EnqueueAscii(ch: schar)
      requires Valid()
      modifies this`r, queue
      ensures Valid()
      ensures View() == old(View()).(ring := old(View()).ring.Push(ch))
    {
      var next := (r + 1) % QLEN;
      if next != f {
        queue[r] := ch;
        r := next;
      }
    }

    method Enqueue(ev: KeyEvent, ascii: int -> Text)
      requires Valid()
      modifies this`r, queue, sdlkState
      ensures Valid()
      ensures View() == SerialEnqueue(old(View()), ev, ascii)
    {
      if ev.key < 0 || ev.key >= SDLK_LAST {
        return;
      }
      if ev.kind == KeyDown {
        if sdlkState[ev.key] {
          return;
        }
        sdlkState[ev.key] := true;
      }
      if ev.kind == KeyUp {
        sdlkState[ev.key] := false;
        return;
      }
      var text := ascii(ev.key);
      ghost var start := View();
      var p := 0;
      while p < |text|
        invariant 0 <= p <= |text|
        invariant Valid() && sdlkState[..] == start.keys
        invariant View().ring.Offer(text[p..]) == start.ring.Offer(text)
      {
        var next := (r + 1) % QLEN;
        if next != f {
          assert text[p..][0] == text[p] && text[p..][1..] == text[p + 1..];
          queue[r] := text[p];
          r := next;
        } else {
          break;
        }
        p := p + 1;
      }
    }

    method Peek(addr: nat) returns (data: Option<u32>)
      requires Valid()
      ensures data == SerialPeek(View(), addr)
    {
      if addr > AddressMap.SERIAL_SIZE {
        return None;
      }
      match addr {
        case 0x0 => data := Some(Wrap(queue[f]));
        case 0x8 => data := Some(if f == r then 0 else 1);
        case 0xC => data := Some(ctrl);
        case _ => data := None;
      }
    }

    method Read(addr: nat) returns (data: Option<u32>)
      requires Valid()
      modifies this`f
      ensures Valid()
      ensures data.None? <==> SerialRead(old(View()), addr).None?
      ensures data.Some? ==> SerialRead(old(View()), addr) == Some((View(), data.value))
    {
      data := Peek(addr);
      if data.Some? && addr == UARTLITE_RX && f != r {
        f := (f + 1) % QLEN;
      }
    }

    method Write(addr: nat, data: u32) returns (ok: bool)
      requires Valid()
      modifies this`ctrl, this`tx
      ensures Valid()
      ensures ok <==> SerialWrite(old(View()), addr, data).Some?
      ensures ok ==> SerialWrite(old(View()), addr, data) == Some(View())
    {
      if addr > AddressMap.SERIAL_SIZE {
        return false;
      }
      match addr {
        case 0x4 => tx := tx + [data % 0x100]; ok := true;
        case 0xC => ctrl := data; ok := true;
        case _ => ok := false;
      }
    }
  }
}
