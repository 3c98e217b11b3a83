// The eight-entry ring of recent instructions (src/cpu/iq.c).

module TraceRing {
  import opened Words

  const NR_INSTR: int := 8

  /** An abstract entry: a pc, and the instruction word if it has been recorded. */
  datatype Entry = Entry(pc: u32, instr: Option<u32>)

  /** iq_element_t */
  datatype Element = Element(pc: u32, instr: u32, instrEnq: bool)

  function Abs(e: Element): Entry {
    Entry(e.pc, if e.instrEnq then Some(e.instr) else None)
  }

  function Blanks(): (s: seq<Entry>)
    ensures |s| == NR_INSTR
  {
    seq(NR_INSTR, _ => Entry(0, None))
  }

  /** The last eight of eight blank entries followed by the history. */
  function Window(history: seq<Entry>): (s: seq<Entry>)
    ensures |s| == NR_INSTR
  {
    (Blanks() + history)[|history|..]
  }

  /** The history with the word of its newest entry recorded. */
  function Record(history: seq<Entry>, instr: u32): seq<Entry>
    requires history != []
  {
    history[|history| - 1 := history[|history| - 1].(instr := Some(instr))]
  }

  lemma RecordNewest(history: seq<Entry>, pc: u32, instr: u32)
    ensures Record(history + [Entry(pc, None)], instr) == history + [Entry(pc, Some(instr))]
  {
  }

  type slot = x: int | 0 <= x < NR_INSTR

  /** The k-th slot counted from p. */
  function Slot(p: slot, k: slot): slot {
    (p + k) % NR_INSTR
  }

  function NextSlot(p: slot): slot {
    (p + 1) % NR_INSTR
  }

  /** Read from p, the ring shows the window of the history. */
  ghost predicate Shows(iq: seq<Element>, p: slot, history: seq<Entry>)
    requires |iq| == NR_INSTR
  {
    forall k: slot :: Abs(iq[Slot(p, k)]) == Window(history)[k]
  }

  lemma WindowShift(history: seq<Entry>, e: Entry)
    ensures forall k: slot :: Window(history + [e])[k] == if k == NR_INSTR - 1 then e else Window(history)[k + 1]
  {
    assert Blanks() + (history + [e]) == (Blanks() + history) + [e];
  }

  lemma WindowLast(history: seq<Entry>)
    requires history != []
    ensures Window(history)[NR_INSTR - 1] == history[|history| - 1]
  {
  }

  lemma SlotValue(p: slot, k: slot)
    ensures Slot(p, k) == if p + k < NR_INSTR then p + k else p + k - NR_INSTR
  {
  }

  lemma SlotFacts(p: slot)
    ensures Slot(p, 0) == p
    ensures forall k: slot :: Slot(NextSlot(p), k) == if k == NR_INSTR - 1 then p else Slot(p, k + 1)
    ensures forall k: slot, j: slot :: Slot(p, k) == Slot(p, j) ==> k == j
  {
    hide Slot;
    SlotValue(p, 0);
    forall k: slot ensures Slot(NextSlot(p), k) == if k == NR_INSTR - 1 then p else Slot(p, k + 1) {
      SlotValue(NextSlot(p), k);
      if k < NR_INSTR - 1 { SlotValue(p, k + 1); }
    }
    forall k: slot, j: slot ensures Slot(p, k) == Slot(p, j) ==> k == j {
      SlotValue(p, k);
      SlotValue(p, j);
    }
  }

  lemma PushShows(iq: seq<Element>, p: slot, history: seq<Entry>, e: Element)
    requires |iq| == NR_INSTR && Shows(iq, p, history)
    ensures Shows(iq[p := e], NextSlot(p), history + [Abs(e)])
  {
    SlotFacts(p);
    WindowShift(history, Abs(e));
    forall k: slot
      ensures Abs(iq[p := e][Slot(NextSlot(p), k)]) == Window(history + [Abs(e)])[k]
    {
      if k != NR_INSTR - 1 {
        assert Slot(p, k + 1) != p;
      }
    }
  }

  /** Replacing the newest entry in the ring replaces it in the history. */
  lemma RecordShows(iq: seq<Element>, p: slot, history: seq<Entry>, instr: u32)
    requires |iq| == NR_INSTR && Shows(iq, p, history) && history != []
    ensures var q := Slot(p, NR_INSTR - 1);
            && Abs(iq[q]) == history[|history| - 1]
            && Shows(iq[q := iq[q].(instrEnq := true, instr := instr)], p, Record(history, instr))
  {
    var q := Slot(p, NR_INSTR - 1);
    var h := Record(history, instr);
    SlotFacts(p);
    WindowLast(history);
    WindowLast(h);
    forall k: slot
      ensures Abs(iq[q := iq[q].(instrEnq := true, instr := instr)][Slot(p, k)]) == Window(h)[k]
    {
      if k != NR_INSTR - 1 {
        assert Slot(p, k) != q;
        assert Window(h)[k] == Window(history)[k];
      }
    }
  }

  /** With no history every slot is blank. */
  lemma BlankRing(iq: seq<Element>, p: slot, i: slot)
    requires |iq| == NR_INSTR && Shows(iq, p, [])
    ensures Abs(iq[i]) == Entry(0, None)
  {
    var k: slot := (i - p) % NR_INSTR;
    assert Slot(p, k) == i;
    assert Window([])[k] == Entry(0, None);
  }

  class InstrQueue {
    const iq: array<Element>
    var pcPtr: slot
    var instrPtr: slot
    ghost var history: seq<Entry>
    ghost const Repr: set<object>

    ghost predicate Valid()
      reads this, iq
    {
      && Repr == {this, iq}
      && iq.Length == NR_INSTR
      && (history != [] ==> instrPtr == Slot(pcPtr, NR_INSTR - 1))
      && Shows(iq[..], pcPtr, history)
    }

    constructor ()
      ensures Valid() && fresh(Repr)
      ensures history == []
    {
      var q := new Element[NR_INSTR](_ => Element(0, 0, false));
      iq := q;
      pcPtr, instrPtr, history := 0, 0, [];
      Repr := {this, q};
    }

    method EnqueuePc(pc: u32)
      requires Valid()
      modifies this, iq
      ensures Valid()
      ensures history == old(history) + [Entry(pc, None)]
    {
      PushShows(iq[..], pcPtr, history, iq[pcPtr].(pc := pc, instrEnq := false));
      SlotFacts(pcPtr);
      instrPtr := pcPtr;
      iq[pcPtr] := iq[pcPtr].(pc := pc, instrEnq := false);
      pcPtr := (pcPtr + 1) % NR_INSTR;
      history := history + [Entry(pc, None)];
    }

    method EnqueueInstr(instr: u32)
      requires Valid() && history != []
      modifies this`history, iq
      ensures Valid()
      ensures history == Record(old(history), instr)
    {
      RecordShows(iq[..], pcPtr, history, instr);
      iq[instrPtr] := iq[instrPtr].(instrEnq := true, instr := instr);
      history := Record(history, instr);
    }

    /** get_current_instr: the word of the newest entry, or 0 if there is none or its fetch has not
        completed. */
    method GetCurrentInstr() returns (instr: u32)
      requires Valid()
      ensures instr == if history == [] then 0
                       else match history[|history| - 1].instr case Some(w) => w case None => 0
    {
      if history == [] {
        BlankRing(iq[..], pcPtr, instrPtr);
      } else {
        RecordShows(iq[..], pcPtr, history, 0);
      }
      if iq[instrPtr].instrEnq {
        return iq[instrPtr].instr;
      }
      return 0;
    }

    /** print_instr_queue: its lines, as entries.  The do-while loop ends after eight of them. */
    method PrintQueue() returns (lines: seq<Entry>)
      requires Valid()
      ensures lines == Window(history)
    {
      hide Window;
      hide Abs;
      SlotFacts(pcPtr);
      lines := [Abs(iq[pcPtr])];
      assert lines[0] == Abs(iq[..][Slot(pcPtr, 0)]);
      var i := (pcPtr + 1) % NR_INSTR;
      while i != pcPtr
        invariant 1 <= |lines| <= NR_INSTR
        invariant i == (pcPtr + |lines|) % NR_INSTR
        invariant lines == Window(history)[..|lines|]
        decreases NR_INSTR - |lines|
      {
        assert iq[i] == iq[..][Slot(pcPtr, |lines|)];
        lines := lines + [Abs(iq[i])];
        i := (i + 1) % NR_INSTR;
      }
    }
  }
}
