// The receive path of the UART as interleaved steps.  The producer is the SIGVTALRM handler: it runs
// to completion, but it can run between any two statements of serial_read (src/dev/serial.c:175-181).

module UartInterleaving {
  import opened Words
  import opened Uart

  /** Where the guest's read of the Rx register stands.
      AtPeek: serial_read has been entered; AtTest: line 177 has fetched the character, line 178 has not
      yet compared the indices; AtAdvance: the comparison found the ring non-empty. */
  datatype Phase = Idle | AtPeek | AtTest(data: schar) | AtAdvance(data: schar)

  /** accepted: every character the producer stored, in order.
      delivered: every value an Rx read returned, in order.
      credit: the last STAT read returned 1 and no Rx read has started since. */
  datatype Sys = Sys(ring: Ring, phase: Phase, credit: bool, accepted: seq<schar>, delivered: seq<schar>)

  datatype Step = Signal(text: Text) | Stat | BeginRx | Micro

  function Empty(): Ring {
    Ring(seq(QLEN, _ => 0), 0, 0)
  }

  function Init(): Sys {
    Sys(Empty(), Idle, false, [], [])
  }

  predicate Enabled(s: Sys, st: Step) {
    match st
    case Signal(_) => true
    case Stat => s.phase.Idle?
    case BeginRx => s.phase.Idle?
    case Micro => !s.phase.Idle?
  }

  function Next(s: Sys, st: Step): Sys
    requires Enabled(s, st)
  {
    match st
    case Signal(text) => s.(ring := s.ring.Offer(text), accepted := s.accepted + Fits(s.ring, text))
    case Stat => s.(credit := s.ring.f != s.ring.r)
    case BeginRx => s.(phase := AtPeek, credit := false)
    case Micro =>
      match s.phase
      case AtPeek => s.(phase := AtTest(s.ring.cells[s.ring.f]))
      case AtTest(d) =>
        if s.ring.f != s.ring.r then s.(phase := AtAdvance(d))
        else s.(phase := Idle, delivered := s.delivered + [d])
      case AtAdvance(d) => s.(ring := s.ring.Advance(), phase := Idle, delivered := s.delivered + [d])
      case Idle => s
  }

  /** Every step is possible when it is taken. */
  predicate Run(s: Sys, steps: seq<Step>)
    decreases |steps|
  {
    steps == [] || (Enabled(s, steps[0]) && Run(Next(s, steps[0]), steps[1..]))
  }

  /** The guest starts an Rx read only after STAT returned 1. */
  predicate Disciplined(s: Sys, steps: seq<Step>)
    requires Run(s, steps)
    decreases |steps|
  {
    steps == [] || ((steps[0].BeginRx? ==> s.credit) && Disciplined(Next(s, steps[0]), steps[1..]))
  }

  function After(s: Sys, steps: seq<Step>): Sys
    requires Run(s, steps)
    decreases |steps|
  {
    if steps == [] then s else After(Next(s, steps[0]), steps[1..])
  }

  /** Nothing lost, duplicated or reordered. */
  predicate Balanced(s: Sys) {
    s.accepted == s.delivered + s.ring.Contents()
  }

  predicate Inv(s: Sys) {
    && Balanced(s)
    && (s.credit ==> s.phase.Idle? && s.ring.Contents() != [])
    && (!s.phase.Idle? ==> s.ring.Contents() != [])
    && (s.phase.AtTest? || s.phase.AtAdvance? ==> s.phase.data == s.ring.Contents()[0])
  }

  lemma EmptyIff(q: Ring)
    ensures q.f == q.r <==> q.Contents() == []
  {
  }

  lemma SignalKeeps(s: Sys, text: Text)
    requires Inv(s)
    ensures Inv(Next(s, Signal(text)))
  {
    OfferAppends(s.ring, text);
    var t := Next(s, Signal(text));
    assert t.accepted == s.delivered + (s.ring.Contents() + Fits(s.ring, text));
  }

  lemma StepKeeps(s: Sys, st: Step)
    requires Inv(s) && Enabled(s, st) && (st.BeginRx? ==> s.credit)
    ensures Inv(Next(s, st))
  {
    match st {
      case Signal(text) => SignalKeeps(s, text);
      case Stat => EmptyIff(s.ring);
      case BeginRx =>
      case Micro =>
        EmptyIff(s.ring);
        AdvanceDrops(s.ring);
        if s.phase.AtAdvance? {
          var c := s.ring.Contents();
          assert s.delivered + c == (s.delivered + [c[0]]) + c[1..];
        }
    }
  }

  /** However the handler interleaves with a guest that reads Rx only after STAT returned 1, the
      characters delivered, followed by those still in the ring, are the characters accepted. */
  lemma {:induction false} DisciplinedRunIsLossless(s: Sys, steps: seq<Step>)
    requires Inv(s) && Run(s, steps) && Disciplined(s, steps)
    ensures Inv(After(s, steps))
    ensures Balanced(After(s, steps)) && |After(s, steps).ring.Contents()| <= CAPACITY
    decreases |steps|
  {
    if steps != [] {
      StepKeeps(s, steps[0]);
      DisciplinedRunIsLossless(Next(s, steps[0]), steps[1..]);
    }
  }

  /** From program start, then, with no further assumption. */
  lemma LosslessFromStart(steps: seq<Step>)
    requires Run(Init(), steps) && Disciplined(Init(), steps)
    ensures var s := After(Init(), steps);
            Balanced(s) && |s.ring.Contents()| <= CAPACITY
  {
    DisciplinedRunIsLossless(Init(), steps);
  }

  /** One Rx read with handler runs before the peek, between lines 177 and 178, and before the index
      update. */
  function RxSteps(t1: Text, t2: Text, t3: Text, empty: bool): seq<Step> {
    [BeginRx, Signal(t1), Micro, Signal(t2), Micro] + (if empty then [] else [Signal(t3), Micro])
  }

  lemma AfterStep(s: Sys, st: Step, rest: seq<Step>)
    requires Enabled(s, st) && Run(Next(s, st), rest)
    ensures Run(s, [st] + rest) && After(s, [st] + rest) == After(Next(s, st), rest)
  {
    assert ([st] + rest)[1..] == rest;
  }

  /** The states an Rx read passes through. */
  lemma RxTrace(s: Sys, t1: Text, t2: Text, t3: Text)
    requires s.phase.Idle?
    ensures var q1 := s.ring.Offer(t1);
            var q2 := q1.Offer(t2);
            var d := q1.cells[q1.f];
            var empty := q2.f == q2.r;
            var acc := s.accepted + Fits(s.ring, t1) + Fits(q1, t2);
            && Run(s, RxSteps(t1, t2, t3, empty))
            && After(s, RxSteps(t1, t2, t3, empty)) ==
               if empty then Sys(q2, Idle, false, acc, s.delivered + [d])
               else Sys(q2.Offer(t3).Advance(), Idle, false, acc + Fits(q2, t3), s.delivered + [d])
  {
    var q1 := s.ring.Offer(t1);
    var q2 := q1.Offer(t2);
    var d := q1.cells[q1.f];
    OfferAppends(s.ring, t1);
    OfferAppends(q1, t2);
    var s1 := Next(s, BeginRx);
    var s2 := Next(s1, Signal(t1));
    var s3 := Next(s2, Micro);
    var s4 := Next(s3, Signal(t2));
    var s5 := Next(s4, Micro);
    assert s3.phase == AtTest(d);
    var tail: seq<Step> := [];
    if q2.f != q2.r {
      var s6 := Next(s5, Signal(t3));
      AfterStep(s6, Micro, []);
      AfterStep(s5, Signal(t3), [Micro]);
      assert [Signal(t3)] + [Micro] == [Signal(t3), Micro];
      tail := [Signal(t3), Micro];
    }
    AfterStep(s4, Micro, tail);
    AfterStep(s3, Signal(t2), [Micro] + tail);
    AfterStep(s2, Micro, [Signal(t2)] + ([Micro] + tail));
    AfterStep(s1, Signal(t1), [Micro] + ([Signal(t2)] + ([Micro] + tail)));
    AfterStep(s, BeginRx, [Signal(t1)] + ([Micro] + ([Signal(t2)] + ([Micro] + tail))));
    assert RxSteps(t1, t2, t3, q2.f == q2.r) == [BeginRx] + ([Signal(t1)] + ([Micro] + ([Signal(t2)] + ([Micro] + tail))));
  }

  /** Exactly when an Rx read keeps the balance, with or without the STAT discipline: the ring was
      non-empty at the peek, or a character arrived between lines 177 and 178 that happens to equal the
      stale cell that the peek returned. */
  lemma RxReadBalancedIff(s: Sys, t1: Text, t2: Text, t3: Text)
    requires s.phase.Idle? && Balanced(s)
    ensures var q1 := s.ring.Offer(t1);
            var q2 := q1.Offer(t2);
            var empty := q2.f == q2.r;
            && Run(s, RxSteps(t1, t2, t3, empty))
            && (Balanced(After(s, RxSteps(t1, t2, t3, empty))) <==>
                  (q1.Contents() != [] || (t2 != [] && t2[0] == q1.cells[q1.f])))
  {
    var q1 := s.ring.Offer(t1);
    var q2 := q1.Offer(t2);
    var q3 := q2.Offer(t3);
    var d := q1.cells[q1.f];
    RxTrace(s, t1, t2, t3);
    OfferBalance(s.accepted, s.delivered, s.ring, t1);
    var a1 := s.accepted + Fits(s.ring, t1);
    OfferBalance(a1, s.delivered, q1, t2);
    OfferHead(q1, t2);
    EmptyIff(q1);
    EmptyIff(q2);
    if q2.f == q2.r {
      assert |s.delivered + [d] + q2.Contents()| == |s.delivered| + 1;
    } else {
      OfferBalance(a1 + Fits(q1, t2), s.delivered, q2, t3);
      OfferHead(q2, t3);
      EmptyIff(q3);
      AdvanceDrops(q3);
      HeadBalance(s.delivered, d, q3.Contents());
      if q1.f != q1.r { AdvanceDrops(q1); }
    }
  }

  lemma OfferBalance(accepted: seq<schar>, delivered: seq<schar>, q: Ring, t: Text)
    requires accepted == delivered + q.Contents()
    ensures accepted + Fits(q, t) == delivered + q.Offer(t).Contents()
  {
    OfferAppends(q, t);
  }

  /** An offer does not change the oldest character, and gives an empty ring its first one. */
  lemma OfferHead(q: Ring, t: Text)
    ensures q.Offer(t).Contents() == [] <==> q.Contents() == [] && t == []
    ensures q.Contents() != [] ==> q.Offer(t).Contents()[0] == q.Contents()[0]
    ensures q.Contents() == [] && t != [] ==> q.Offer(t).Contents()[0] == t[0]
  {
    OfferAppends(q, t);
  }

  lemma HeadBalance(delivered: seq<schar>, d: schar, c: seq<schar>)
    requires c != []
    ensures delivered + c == delivered + [d] + c[1..] <==> c[0] == d
  {
    var a, b := delivered + c, delivered + [d] + c[1..];
    assert a[|delivered|] == c[0] && b[|delivered|] == d;
    if c[0] == d {
      assert c == [d] + c[1..];
    }
  }

  /** Without the STAT discipline a character can be skipped: an empty read interrupted between lines
      177 and 178 by the arrival of 'x' returns the blank cell and then advances past 'x'. */
  lemma DisciplineIsNecessary()
    ensures var steps := RxSteps([], [120], [], false);
            && Run(Init(), steps) && !Disciplined(Init(), steps)
            && After(Init(), steps).accepted == [120]
            && After(Init(), steps).delivered == [0]
            && After(Init(), steps).ring.Contents() == []
  {
    var s := Init();
    RxTrace(s, [], [120], []);
    OfferAppends(Empty(), [120]);
    var q := Empty().Offer([120]);
    EmptyIff(q);
    AdvanceDrops(q);
  }

  /** A read that no handler interrupts is the serial_read of the register model. */
  lemma UninterruptedRead(s: Sys, u: UartState)
    requires s.phase.Idle? && u.ring == s.ring
    ensures var empty := s.ring.f == s.ring.r;
            && Run(s, RxSteps([], [], [], empty))
            && var t := After(s, RxSteps([], [], [], empty));
            && |t.delivered| == |s.delivered| + 1
            && SerialRead(u, UARTLITE_RX) == Some((u.(ring := t.ring), Wrap(t.delivered[|s.delivered|])))
  {
    RxTrace(s, [], [], []);
  }
}
