// Key debouncing: which key events reach the receive ring, over whole event sequences with guest
// accesses in between.

module UartKeys {
  import opened Words
  import opened Uart

  /** GuestRead: a read of the Rx register.  GuestWrite: a write of any register. */
  datatype Event = Key(ev: KeyEvent) | GuestRead | GuestWrite(addr: nat, data: u32)

  /** Whether key is held down after hist: its last press or release was a press. */
  predicate Pressed(hist: seq<KeyEvent>, key: int)
    decreases |hist|
  {
    if hist == [] then false
    else
      var e := hist[|hist| - 1];
      if e.key == key && e.kind == KeyDown then true
      else if e.key == key && e.kind == KeyUp then false
      else Pressed(hist[..|hist| - 1], key)
  }

  /** The event offers text: a released-to-pressed transition of a key in the table.  (An event that
      is neither a press nor a release would also offer text, but the timer handler passes none.) */
  predicate Fires(hist: seq<KeyEvent>, e: KeyEvent) {
    InRange(e.key) && (e.kind == OtherType || (e.kind == KeyDown && !Pressed(hist, e.key)))
  }

  /** u: the device.  hist: the key events so far.  pieces: for each firing event, the part of its text
      that fitted.  taken: the characters that reads removed from the ring.  returned: every value that an
      Rx read returned, including the stale cell that a read of an empty ring returns. */
  datatype KeyRun = KeyRun(u: UartState, hist: seq<KeyEvent>, pieces: seq<Text>, taken: seq<schar>, returned: seq<schar>)

  function NextKey(k: KeyRun, e: Event, ascii: int -> Text): KeyRun {
    match e
    case Key(ev) =>
      KeyRun(SerialEnqueue(k.u, ev, ascii),
             k.hist + [ev],
             if Fires(k.hist, ev) then k.pieces + [Fits(k.u.ring, ascii(ev.key))] else k.pieces,
             k.taken,
             k.returned)
    case GuestRead =>
      var got := SerialRead(k.u, UARTLITE_RX);
      var ch := k.u.ring.cells[k.u.ring.f];
      if got.None? then k
      else if k.u.ring.f == k.u.ring.r then k.(u := got.value.0, returned := k.returned + [ch])
      else k.(u := got.value.0, taken := k.taken + [ch], returned := k.returned + [ch])
    case GuestWrite(addr, data) =>
      var put := SerialWrite(k.u, addr, data);
      if put.None? then k else k.(u := put.value)
  }

  function RunKeys(k: KeyRun, events: seq<Event>, ascii: int -> Text): KeyRun
    decreases |events|
  {
    if events == [] then k else RunKeys(NextKey(k, events[0], ascii), events[1..], ascii)
  }

  function Concat(pieces: seq<Text>): Text
    decreases |pieces|
  {
    if pieces == [] then [] else Concat(pieces[..|pieces| - 1]) + pieces[|pieces| - 1]
  }

  ghost predicate KeysAgree(u: UartState, hist: seq<KeyEvent>) {
    forall key | 0 <= key < SDLK_LAST :: u.keys[key] == Pressed(hist, key)
  }

  ghost predicate Inv(k: KeyRun) {
    && KeysAgree(k.u, k.hist)
    && Concat(k.pieces) == k.taken + k.u.ring.Contents()
  }

  lemma PressedStep(hist: seq<KeyEvent>, e: KeyEvent, key: int)
    ensures Pressed(hist + [e], key) ==
            if e.key == key && e.kind == KeyDown then true
            else if e.key == key && e.kind == KeyUp then false
            else Pressed(hist, key)
  {
    assert (hist + [e])[..|hist|] == hist;
  }

  /** The table tracks the pressed keys, and the ring is offered the key's text exactly when the event
      fires. */
  lemma EnqueueDebounces(u: UartState, hist: seq<KeyEvent>, ev: KeyEvent, ascii: int -> Text)
    requires KeysAgree(u, hist)
    ensures KeysAgree(SerialEnqueue(u, ev, ascii), hist + [ev])
    ensures SerialEnqueue(u, ev, ascii).ring == if Fires(hist, ev) then u.ring.Offer(ascii(ev.key)) else u.ring
  {
    var v := SerialEnqueue(u, ev, ascii);
    forall key | 0 <= key < SDLK_LAST ensures v.keys[key] == Pressed(hist + [ev], key) {
      PressedStep(hist, ev, key);
    }
  }

  lemma ConcatSnoc(pieces: seq<Text>, t: Text)
    ensures Concat(pieces + [t]) == Concat(pieces) + t
  {
    assert (pieces + [t])[..|pieces|] == pieces;
  }

  lemma KeyKeeps(k: KeyRun, ev: KeyEvent, ascii: int -> Text)
    requires Inv(k)
    ensures Inv(NextKey(k, Key(ev), ascii))
  {
    hide Pressed;
    hide SerialEnqueue;
    hide Concat;
    EnqueueDebounces(k.u, k.hist, ev, ascii);
    if Fires(k.hist, ev) {
      OfferAppends(k.u.ring, ascii(ev.key));
      ConcatSnoc(k.pieces, Fits(k.u.ring, ascii(ev.key)));
    }
  }

  lemma ReadKeeps(k: KeyRun, ascii: int -> Text)
    requires Inv(k)
    ensures Inv(NextKey(k, GuestRead, ascii))
  {
    hide Pressed;
    hide Concat;
    hide Ring.Contents;
    hide Ring.Advance;
    if k.u.ring.f != k.u.ring.r {
      AdvanceDrops(k.u.ring);
      var c := k.u.ring.Contents();
      assert k.taken + c == (k.taken + [c[0]]) + c[1..];
    }
  }

  lemma WriteKeeps(k: KeyRun, addr: nat, data: u32, ascii: int -> Text)
    requires Inv(k)
    ensures Inv(NextKey(k, GuestWrite(addr, data), ascii))
  {
    hide Pressed;
    hide Concat;
  }

  lemma NextKeeps(k: KeyRun, e: Event, ascii: int -> Text)
    requires Inv(k)
    ensures Inv(NextKey(k, e, ascii))
  {
    hide Inv;
    hide NextKey;
    match e {
      case Key(ev) => KeyKeeps(k, ev, ascii);
      case GuestRead => ReadKeeps(k, ascii);
      case GuestWrite(addr, data) => WriteKeeps(k, addr, data, ascii);
    }
  }

  /** Over any sequence of key events and guest accesses, what reads have removed followed by what is
      waiting is the concatenation, in event order, of the accepted prefixes. */
  lemma {:induction false} AcceptedStream(k: KeyRun, events: seq<Event>, ascii: int -> Text)
    requires Inv(k)
    ensures Inv(RunKeys(k, events, ascii))
    decreases |events|
  {
    if events != [] {
      NextKeeps(k, events[0], ascii);
      AcceptedStream(NextKey(k, events[0], ascii), events[1..], ascii);
    }
  }

  function Start(): KeyRun {
    KeyRun(UartInit(), [], [], [], [])
  }

  /** From program start, with no key held. */
  lemma AcceptedFromStart(events: seq<Event>, ascii: int -> Text)
    ensures var k := RunKeys(Start(), events, ascii);
            && KeysAgree(k.u, k.hist)
            && Concat(k.pieces) == k.taken + k.u.ring.Contents()
  {
    assert Concat([]) == [] + UartInit().ring.Contents();
    AcceptedStream(Start(), events, ascii);
  }

  /** How many of the Rx reads find the ring empty. */
  function EmptyReads(k: KeyRun, events: seq<Event>, ascii: int -> Text): nat
    decreases |events|
  {
    if events == [] then 0
    else
      (if events[0].GuestRead? && k.u.ring.f == k.u.ring.r then 1 else 0)
      + EmptyReads(NextKey(k, events[0], ascii), events[1..], ascii)
  }

  /** Every read of an empty ring returns one value that no event put there. */
  lemma {:induction false} ReturnedCounts(k: KeyRun, events: seq<Event>, ascii: int -> Text)
    ensures var r := RunKeys(k, events, ascii);
            && |r.returned| - |r.taken| == |k.returned| - |k.taken| + EmptyReads(k, events, ascii)
            && (k.returned == k.taken && EmptyReads(k, events, ascii) == 0 ==> r.returned == r.taken)
    decreases |events|
  {
    hide SerialEnqueue;
    hide SerialWrite;
    hide Fires;
    hide Fits;
    if events != [] {
      ReturnedCounts(NextKey(k, events[0], ascii), events[1..], ascii);
    }
  }

  /** From program start, what the Rx reads returned followed by what waits is what was accepted exactly
      when no read found the ring empty. */
  lemma ReturnedIff(events: seq<Event>, ascii: int -> Text)
    ensures var k := RunKeys(Start(), events, ascii);
            Concat(k.pieces) == k.returned + k.u.ring.Contents() <==> EmptyReads(Start(), events, ascii) == 0
  {
    hide RunKeys;
    hide EmptyReads;
    hide Concat;
    AcceptedFromStart(events, ascii);
    ReturnedCounts(Start(), events, ascii);
  }

  function SentBy(e: Event): seq<byte> {
    if e.GuestWrite? && e.addr == UARTLITE_TX then [e.data % 0x100] else []
  }

  /** The characters that the guest's Tx writes send, in order. */
  function Sent(events: seq<Event>): seq<byte>
    decreases |events|
  {
    if events == [] then []
    else SentBy(events[0]) + Sent(events[1..])
  }

  /** The last value written to the control register. */
  function LastCtrl(initial: u32, events: seq<Event>): u32
    decreases |events|
  {
    if events == [] then initial
    else
      LastCtrl(if events[0].GuestWrite? && events[0].addr == UARTLITE_CTRL then events[0].data else initial, events[1..])
  }

  /** Over any events, the device has sent exactly the low bytes of the Tx writes, in order. */
  lemma {:induction false} SentFollows(k: KeyRun, events: seq<Event>, ascii: int -> Text)
    ensures RunKeys(k, events, ascii).u.tx == k.u.tx + Sent(events)
    decreases |events|
  {
    hide NextKey;
    hide LastCtrl;
    if events == [] {
      assert k.u.tx + Sent(events) == k.u.tx;
    } else {
      SentFollows(NextKey(k, events[0], ascii), events[1..], ascii);
      OneTransmit(k, events[0], ascii);
      SentUnfold(k.u.tx, events);
    }
  }

  lemma SentUnfold(tx: seq<byte>, events: seq<Event>)
    requires events != []
    ensures tx + Sent(events) == tx + SentBy(events[0]) + Sent(events[1..])
  {
    assert Sent(events) == SentBy(events[0]) + Sent(events[1..]);
    hide Sent;
    hide SentBy;
  }

  /** Over any events, the control register holds the last value written there. */
  lemma {:induction false} CtrlFollows(k: KeyRun, events: seq<Event>, ascii: int -> Text)
    ensures RunKeys(k, events, ascii).u.ctrl == LastCtrl(k.u.ctrl, events)
    decreases |events|
  {
    hide NextKey;
    hide Sent;
    if events != [] {
      OneTransmit(k, events[0], ascii);
      CtrlFollows(NextKey(k, events[0], ascii), events[1..], ascii);
    }
  }

  lemma OneTransmit(k: KeyRun, e: Event, ascii: int -> Text)
    ensures NextKey(k, e, ascii).u.tx == k.u.tx + SentBy(e)
    ensures NextKey(k, e, ascii).u.ctrl == if e.GuestWrite? && e.addr == UARTLITE_CTRL then e.data else k.u.ctrl
  {
    hide Fires;
    hide Fits;
  }

  /** The accepted part is the longest prefix that fits: all of the text, or up to a full ring. */
  lemma LongestPrefix(q: Ring, text: Text)
    ensures Fits(q, text) <= text
    ensures Fits(q, text) == text || |q.Offer(text).Contents()| == CAPACITY
    ensures |q.Contents()| + |text| <= CAPACITY <==> Fits(q, text) == text
  {
    OfferAppends(q, text);
  }

  /** Holding a key down repeats nothing: a second press without a release changes no state. */
  lemma RepeatIgnored(u: UartState, key: int, ascii: int -> Text)
    ensures var e := KeyEvent(KeyDown, key);
            var v := SerialEnqueue(u, e, ascii);
            SerialEnqueue(v, e, ascii) == v
  {
  }
}
