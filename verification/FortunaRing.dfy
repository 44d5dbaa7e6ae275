/** The ring buffer between interrupt-time event sources and the generator: one writer, one reader, no common lock. */
module FortunaRing {
  import opened Bytes

  const SLOTS: nat := 8
  const DATA_SIZE: nat := 4

  /** An event as it is handed over: at most four bytes of data. */
  datatype Event = Event(snum: nat, pnum: nat, data: seq<byte>) {
    predicate Fits() {
      |data| <= DATA_SIZE
    }
  }

  const ZERO: Event := Event(0, 0, [])

  datatype Slot = Slot(snum: nat, pnum: nat, dlen: nat, data: seq<byte>) {
    /** The fields a reader looks at spell out e; bytes past dlen are left over from earlier events. */
    predicate Holds(e: Event) {
      |data| == DATA_SIZE && e.Fits() && snum == e.snum && pnum == e.pnum && dlen == |e.data| && data[..dlen] == e.data
    }
  }

  /** The writer is idle or has written the first `step` of the fields and bytes of its event. */
  datatype Writer = NoWrite | Writing(event: Event, slot: nat, step: nat)

  /** The reader is idle or has copied the first `step` of the fields and bytes of a slot. */
  datatype Reader = NoRead | Reading(step: nat, snum: nat, pnum: nat, dlen: nat, data: seq<byte>)

  /** The shared variables, where both sides are, and what has been published and consumed so far. */
  datatype State = State(elem: seq<Slot>, begin: nat, end: nat, writer: Writer, reader: Reader,
                         pushed: seq<Event>, popped: seq<Event>)

  datatype Step = WriterCheck(snum: nat, pnum: nat, data: seq<byte>) | WriterStep | ReaderCheck | ReaderStep

  function Start(): State {
    State(seq(SLOTS, _ => Slot(0, 0, 0, Zeros(DATA_SIZE))), 0, 0, NoWrite, NoRead, [], [])
  }

  predicate WellFormed(s: State) {
    && |s.elem| == SLOTS && s.begin < SLOTS && s.end < SLOTS
    && (forall i :: 0 <= i < SLOTS ==> |s.elem[i].data| == DATA_SIZE)
    && (s.writer.Writing? ==>
          s.writer.slot < SLOTS && s.writer.event.Fits() && s.writer.step <= 3 + |s.writer.event.data|)
  }

  function Truncate(data: seq<byte>): (r: seq<byte>)
    ensures r <= data && |r| == if |data| < 4 then |data| else 4
  {
    if |data| < DATA_SIZE then data else data[..DATA_SIZE]
  }

  /** One atomic step of either side; a step the side is not ready for changes nothing. */
  function Next(s: State, step: Step): State
    requires WellFormed(s)
  {
    match step
    case WriterCheck(snum, pnum, data) =>
      var slot := (s.begin + 1) % SLOTS;
      if s.writer.Writing? || slot == s.end then s
      else s.(writer := Writing(Event(snum, pnum, Truncate(data)), slot, 0))
    case WriterStep => if s.writer.NoWrite? then s else WriteNext(s)
    case ReaderCheck => if s.reader.Reading? || s.begin == s.end then s else s.(reader := Reading(0, 0, 0, 0, []))
    case ReaderStep => if s.reader.NoRead? then s else ReadNext(s)
  }

  /** The slot after one more field or byte of e: snum, pnum, dlen, then the data. */
  function Filled(slot: Slot, e: Event, step: nat): Slot
    requires |slot.data| == DATA_SIZE && e.Fits() && step < 3 + |e.data|
  {
    if step == 0 then slot.(snum := e.snum)
    else if step == 1 then slot.(pnum := e.pnum)
    else if step == 2 then slot.(dlen := |e.data|)
    else slot.(data := slot.data[step - 3 := e.data[step - 3]])
  }

  /** The next field, or the new begin once all are written. */
  function WriteNext(s: State): State
    requires WellFormed(s) && s.writer.Writing?
  {
    var Writing(e, slot, step) := s.writer;
    if step == 3 + |e.data| then s.(begin := slot, writer := NoWrite, pushed := s.pushed + [e])
    else s.(elem := s.elem[slot := Filled(s.elem[slot], e, step)], writer := Writing(e, slot, step + 1))
  }

  /** The reader has all of the event. */
  predicate Complete(r: Reader)
    requires r.Reading?
  {
    r.step >= 3 && (|r.data| >= r.dlen || |r.data| >= DATA_SIZE)
  }

  /** The reader with one more field or byte: snum, pnum, dlen, then the data. */
  function Fetched(r: Reader, slot: Slot): Reader
    requires r.Reading? && !Complete(r) && |slot.data| == DATA_SIZE
  {
    if r.step == 0 then r.(step := 1, snum := slot.snum)
    else if r.step == 1 then r.(step := 2, pnum := slot.pnum)
    else if r.step == 2 then r.(step := 3, dlen := if slot.dlen < DATA_SIZE then slot.dlen else DATA_SIZE)
    else r.(data := r.data + [slot.data[|r.data|]])
  }

  /** The next field, or the new end once all are read. */
  function ReadNext(s: State): State
    requires WellFormed(s) && s.reader.Reading?
  {
    var r := s.reader;
    if Complete(r)
    then s.(end := (s.end + 1) % SLOTS, reader := NoRead, popped := s.popped + [Event(r.snum, r.pnum, r.data)])
    else s.(reader := Fetched(r, s.elem[s.end]))
  }

  // ----- What every interleaving keeps

  function History(s: State): seq<Event> {
    [ZERO] + s.pushed
  }

  /** The slots from end to begin hold the events not yet consumed, oldest first. */
  ghost predicate SlotsHold(s: State)
    requires WellFormed(s) && |s.popped| <= |s.pushed|
  {
    forall k :: |s.popped| <= k <= |s.pushed| ==> s.elem[k % SLOTS].Holds(History(s)[k])
  }

  ghost predicate Indexed(s: State) {
    && |s.popped| <= |s.pushed| < |s.popped| + SLOTS
    && s.begin == |s.pushed| % SLOTS && s.end == |s.popped| % SLOTS
    && s.popped == History(s)[..|s.popped|]
  }

  /** What the writer has put into its slot so far. */
  predicate Written(slot: Slot, e: Event, step: nat) {
    && |slot.data| == DATA_SIZE && e.Fits()
    && (step > 0 ==> slot.snum == e.snum) && (step > 1 ==> slot.pnum == e.pnum) && (step > 2 ==> slot.dlen == |e.data|)
    && (3 < step <= 3 + |e.data| ==> slot.data[..step - 3] == e.data[..step - 3])
  }

  ghost predicate WriterOk(s: State)
    requires WellFormed(s)
  {
    s.writer.Writing? ==>
      && s.writer.slot == (|s.pushed| + 1) % SLOTS && |s.pushed| + 1 < |s.popped| + SLOTS
      && Written(s.elem[s.writer.slot], s.writer.event, s.writer.step)
  }

  predicate Copied(r: Reader, e: Event)
    requires r.Reading?
  {
    && (r.step > 0 ==> r.snum == e.snum) && (r.step > 1 ==> r.pnum == e.pnum)
    && (r.step > 2 ==> r.dlen == |e.data|) && (r.step <= 2 ==> r.data == [])
    && r.data <= e.data
  }

  ghost predicate ReaderOk(s: State)
  {
    s.reader.Reading? ==> |s.popped| < |s.pushed| && Copied(s.reader, History(s)[|s.popped|])
  }

  ghost predicate Inv(s: State) {
    WellFormed(s) && Indexed(s) && SlotsHold(s) && WriterOk(s) && ReaderOk(s)
  }

  lemma StartInv()
    ensures Inv(Start())
  {
  }

  lemma NextInv(s: State, step: Step)
    requires Inv(s)
    ensures Inv(Next(s, step))
  {
    match step
    case WriterCheck(_, _, _) => CheckInv(s, step);
    case WriterStep =>
      if s.writer.Writing? {
        WriteNextInv(s);
      }
    case ReaderCheck =>
    case ReaderStep =>
      if s.reader.Reading? {
        ReadNextInv(s);
      }
  }

  lemma CheckInv(s: State, step: Step)
    requires Inv(s) && step.WriterCheck?
    ensures Inv(Next(s, step))
  {
    hide SlotsHold;
    FullWhen(|s.pushed|, |s.popped|);
    var t := Next(s, step);
    assert t.writer.Writing? && s.writer.NoWrite? ==> WriterOk(t);
    assert t.elem == s.elem && t.pushed == s.pushed && t.popped == s.popped;
    SameSlots(s, t);
  }

  lemma FullWhen(pushed: nat, popped: nat)
    requires popped <= pushed < popped + SLOTS
    ensures (pushed % SLOTS + 1) % SLOTS == (pushed + 1) % SLOTS
    ensures (pushed + 1) % SLOTS == popped % SLOTS <==> pushed + 1 == popped + SLOTS
  {
  }

  lemma SameSlots(s: State, t: State)
    requires WellFormed(s) && WellFormed(t) && |s.popped| <= |s.pushed|
    requires t.elem == s.elem && t.pushed == s.pushed && t.popped == s.popped
    ensures SlotsHold(s) ==> SlotsHold(t)
  {
  }

  /** The slot being written is none of those still to be read. */
  lemma SlotFree(s: State, k: nat)
    requires Inv(s) && s.writer.Writing? && |s.popped| <= k <= |s.pushed|
    ensures k % SLOTS != s.writer.slot
  {
    hide SlotsHold, WriterOk, ReaderOk;
    assert WriterOk(s);
    WriterSlot(s);
    Apart(k, |s.pushed| + 1);
  }

  lemma WriterSlot(s: State)
    requires WellFormed(s) && WriterOk(s) && s.writer.Writing?
    ensures s.writer.slot == (|s.pushed| + 1) % SLOTS && |s.pushed| + 1 < |s.popped| + SLOTS
  {
  }

  lemma Apart(a: nat, b: nat)
    requires a < b < a + SLOTS
    ensures a % SLOTS != b % SLOTS
  {
  }

  lemma FilledWritten(slot: Slot, e: Event, step: nat)
    requires Written(slot, e, step) && step < 3 + |e.data|
    ensures Written(Filled(slot, e, step), e, step + 1)
  {
    if step >= 3 {
      var k := step - 3;
      assert Filled(slot, e, step).data[..k] == slot.data[..k];
      assert e.data[..k + 1] == e.data[..k] + [e.data[k]];
      if k == 0 {
        assert Filled(slot, e, step).data[..1] == [e.data[0]];
      } else {
        assert Filled(slot, e, step).data[..k + 1] == e.data[..k] + [e.data[k]];
      }
    }
  }

  lemma WrittenHolds(slot: Slot, e: Event)
    requires Written(slot, e, 3 + |e.data|)
    ensures slot.Holds(e)
  {
    assert e.data[..|e.data|] == e.data;
  }

  lemma WriteNextInv(s: State)
    requires Inv(s) && s.writer.Writing?
    ensures Inv(WriteNext(s))
  {
    hide Written, Filled;
    var t := WriteNext(s);
    var e, slot := s.writer.event, s.elem[s.writer.slot];
    if s.writer.step == 3 + |e.data| {
      WrittenHolds(slot, e);
      assert History(t)[..|t.popped|] == History(s)[..|s.popped|];
    } else {
      FilledWritten(slot, e, s.writer.step);
      FilledLength(slot, e, s.writer.step);
      forall k | |s.popped| <= k <= |s.pushed| ensures t.elem[k % SLOTS].Holds(History(t)[k]) {
        SlotFree(s, k);
      }
    }
  }

  lemma FilledLength(slot: Slot, e: Event, step: nat)
    requires |slot.data| == DATA_SIZE && e.Fits() && step < 3 + |e.data|
    ensures |Filled(slot, e, step).data| == DATA_SIZE
  {
  }

  lemma ReadNextInv(s: State)
    requires Inv(s) && s.reader.Reading?
    ensures Inv(ReadNext(s))
  {
    var t := ReadNext(s);
    var e := History(s)[|s.popped|];
    assert s.elem[|s.popped| % SLOTS].Holds(e);
    if t.reader.NoRead? {
      FullWhen(|s.popped|, |s.popped|);
      assert s.reader.data == e.data;
      assert History(s)[..|t.popped|] == s.popped + [e];
    }
  }

  // ----- Whole runs

  function Run(steps: seq<Step>): (s: State)
    ensures Inv(s)
  {
    if steps == [] then StartInv(); Start()
    else
      var s := Run(steps[..|steps| - 1]);
      NextInv(s, steps[|steps| - 1]);
      Next(s, steps[|steps| - 1])
  }

  /** In every interleaving pops return the zeroed first slot and then the accepted pushes, in order, each once. */
  lemma PopsInOrder(steps: seq<Step>)
    ensures var s := Run(steps);
            && |s.popped| <= |s.pushed| < |s.popped| + SLOTS
            && s.popped == ([ZERO] + s.pushed)[..|s.popped|]
  {
  }

  /** A slot in the reader's hands holds one whole event and the writer is elsewhere. */
  lemma NoTornRead(steps: seq<Step>)
    ensures var s := Run(steps);
            s.reader.Reading? ==>
              && |s.popped| < |s.pushed| && s.elem[s.end].Holds(([ZERO] + s.pushed)[|s.popped|])
              && (s.writer.Writing? ==> s.writer.slot != s.end)
  {
    var s := Run(steps);
    if s.reader.Reading? && s.writer.Writing? {
      SlotFree(s, |s.popped|);
    }
  }

  /** The events offered by the checks of a run. */
  function Offered(steps: seq<Step>): seq<Event> {
    if steps == [] then [] else
    var before := Offered(steps[..|steps| - 1]);
    match steps[|steps| - 1]
    case WriterCheck(snum, pnum, data) => before + [Event(snum, pnum, Truncate(data))]
    case _ => before
  }

  predicate Subsequence<T(==)>(a: seq<T>, b: seq<T>) {
    a == [] || (b != [] && (var a', b' := a[..|a| - 1], b[..|b| - 1];
                            (a[|a| - 1] == b[|b| - 1] && Subsequence(a', b')) || Subsequence(a, b')))
  }

  /** The event being written, if any. */
  function InFlight(w: Writer): seq<Event> {
    if w.Writing? then [w.event] else []
  }

  /** Accepted pushes were offered, in that order, each at most once. */
  lemma {:induction false} PushesWereOffered(steps: seq<Step>)
    ensures Subsequence(Run(steps).pushed + InFlight(Run(steps).writer), Offered(steps))
  {
    if steps != [] {
      var n := |steps| - 1;
      PushesWereOffered(steps[..n]);
      var s, t := Run(steps[..n]), Run(steps);
      OneOffer(s, steps[n]);
      var b := Offered(steps[..n]);
      if steps[n].WriterCheck? {
        var e := Event(steps[n].snum, steps[n].pnum, Truncate(steps[n].data));
        SubsequenceExtends(s.pushed + InFlight(s.writer), b, e);
      }
    }
  }

  lemma OneOffer(s: State, step: Step)
    requires Inv(s)
    ensures var t := Next(s, step);
            var a, a' := s.pushed + InFlight(s.writer), t.pushed + InFlight(t.writer);
            a' == a || (step.WriterCheck? && a' == a + [Event(step.snum, step.pnum, Truncate(step.data))])
  {
    hide Inv;
    Checks(s, step);
  }

  lemma SubsequenceExtends<T>(a: seq<T>, b: seq<T>, x: T)
    requires Subsequence(a, b)
    ensures Subsequence(a + [x], b + [x]) && Subsequence(a, b + [x])
  {
    assert (a + [x])[..|a|] == a && (b + [x])[..|b|] == b;
  }

  // ----- The operations as the source runs them

  class RingBuffer {
    const elem: array<Slot>
    var begin: nat
    var end: nat
    ghost var st: State

    /** The variables are those of a reachable state. */
    ghost predicate Valid()
      reads this, elem
    {
      Inv(st) && elem[..] == st.elem && begin == st.begin && end == st.end
    }

    /** Neither side is in the middle of an operation. */
    ghost predicate Idle()
      reads this
    {
      st.writer.NoWrite? && st.reader.NoRead?
    }

    constructor ()
      ensures Valid() && fresh(elem) && st == Start()
    {
      elem, begin, end := new Slot[SLOTS](_ => Slot(0, 0, 0, Zeros(DATA_SIZE))), 0, 0;
      st := Start();
      new;
      StartInv();
      assert elem[..] == Start().elem;
    }

    /** Each assignment is a step of the writer, whatever the reader is up to. */
    method Push(snum: nat, pnum: nat, data: seq<byte>)
      requires Valid() && st.writer.NoWrite?
      modifies this, elem
      ensures Valid() && st.writer.NoWrite? && st.reader == old(st.reader) && st.popped == old(st.popped)
      ensures st.pushed == if |old(st.pushed)| + 1 == |old(st.popped)| + SLOTS then old(st.pushed)
                           else old(st.pushed) + [Event(snum, pnum, Truncate(data))]
      ensures |st.pushed| > |old(st.pushed)| ==>
                st.pushed[|old(st.pushed)|] == Event(snum, pnum, data[..if |data| < 4 then |data| else 4])
    {
      hide Inv, Next;
      var e := Event(snum, pnum, Truncate(data));
      var slot := (begin + 1) % SLOTS;
      Checks(st, WriterCheck(snum, pnum, data));
      st := Next(st, WriterCheck(snum, pnum, data));
      if slot == end {
        return;
      }
      elem[slot] := elem[slot].(snum := e.snum);
      Wrote();
      elem[slot] := elem[slot].(pnum := e.pnum);
      Wrote();
      elem[slot] := elem[slot].(dlen := |e.data|);
      Wrote();
      for i := 0 to |e.data|
        invariant Valid() && st.writer == Writing(e, slot, 3 + i)
        invariant st.pushed == old(st.pushed) && st.popped == old(st.popped) && st.reader == old(st.reader)
      {
        Facts(st);
        elem[slot] := elem[slot].(data := elem[slot].data[i := e.data[i]]);
        Wrote();
      }
      begin := slot;
      Facts(st);
      st := Next(st, WriterStep);
    }

    /** Each assignment is a step of the reader, whatever the writer is up to. */
    method Pop() returns (e: Event)
      requires Valid() && st.reader.NoRead?
      modifies this
      ensures Valid() && st.reader.NoRead? && st.writer == old(st.writer) && st.pushed == old(st.pushed)
      ensures |old(st.popped)| == |st.pushed| ==> e.data == [] && st.popped == old(st.popped)
      ensures |old(st.popped)| < |st.pushed| ==>
                st.popped == old(st.popped) + [e] && e == ([ZERO] + st.pushed)[|old(st.popped)|]
    {
      hide Inv, Next;
      e := ZERO;
      Checks(st, ReaderCheck);
      st := Next(st, ReaderCheck);
      if begin == end {
        return;
      }
      var next := (end + 1) % SLOTS;
      var snum, pnum, dlen := CopyFields();
      var data := CopyData(dlen);
      end := next;
      e := Event(snum, pnum, data);
      Facts(st);
      st := Next(st, ReaderStep);
      PoppedLast(st);
    }

    /** The three fields, of which the length is as the assert wants it. */
    method CopyFields() returns (snum: nat, pnum: nat, dlen: nat)
      requires Valid() && st.reader == Reading(0, 0, 0, 0, [])
      modifies this`st
      ensures Valid() && st.pushed == old(st.pushed) && st.popped == old(st.popped) && st.writer == old(st.writer)
      ensures st.reader == Reading(3, snum, pnum, dlen, []) && dlen <= DATA_SIZE
    {
      hide Inv, Next;
      Facts(st);
      snum := elem[end].snum;
      Fetch();
      pnum := elem[end].pnum;
      Fetch();
      dlen := if elem[end].dlen < DATA_SIZE then elem[end].dlen else DATA_SIZE;
      WholeSlot(st);
      assert elem[end].dlen == dlen;
      Fetch();
    }

    method CopyData(dlen: nat) returns (data: seq<byte>)
      requires Valid() && st.reader.Reading? && st.reader.step == 3 && st.reader.data == []
      requires dlen == st.reader.dlen <= DATA_SIZE
      modifies this`st
      ensures Valid() && st.pushed == old(st.pushed) && st.popped == old(st.popped) && st.writer == old(st.writer)
      ensures |data| == dlen && st.reader == old(st.reader).(data := data)
    {
      hide Inv;
      data := [];
      while |data| < dlen
        invariant |data| <= dlen && Valid() && st.reader == old(st.reader).(data := data)
        invariant st.pushed == old(st.pushed) && st.popped == old(st.popped) && st.writer == old(st.writer)
      {
        Facts(st);
        data := data + [elem[end].data[|data|]];
        Fetch();
      }
    }

    /** A field has been stored: the writer's step. */
    ghost method Wrote()
      requires Inv(st) && WellFormed(st) && st.writer.Writing? && st.writer.step < 3 + |st.writer.event.data|
      requires begin == st.begin && end == st.end
      requires elem[..] == st.elem[st.writer.slot := Filled(st.elem[st.writer.slot], st.writer.event, st.writer.step)]
      modifies this`st
      ensures Valid() && WellFormed(st) && st.writer == old(st.writer.(step := st.writer.step + 1))
      ensures st.pushed == old(st.pushed) && st.popped == old(st.popped) && st.reader == old(st.reader)
    {
      NextInv(st, WriterStep);
      st := Next(st, WriterStep);
    }

    /** A field has been loaded: the reader's step. */
    ghost method Fetch()
      requires Valid() && WellFormed(st) && st.reader.Reading? && !Complete(st.reader)
      modifies this`st
      ensures Valid() && WellFormed(st) && st.reader == Fetched(old(st.reader), elem[end])
      ensures st.pushed == old(st.pushed) && st.popped == old(st.popped) && st.writer == old(st.writer)
    {
      NextInv(st, ReaderStep);
      st := Next(st, ReaderStep);
    }
  }

  /** What the two checks find out. */
  lemma Checks(s: State, step: Step)
    requires Inv(s)
    ensures WellFormed(s) && Inv(Next(s, step))
    ensures step.WriterCheck? && s.writer.NoWrite? ==>
              var slot := (s.begin + 1) % SLOTS;
              && (slot == s.end <==> |s.pushed| + 1 == |s.popped| + SLOTS)
              && Next(s, step) == if slot == s.end then s
                                  else s.(writer := Writing(Event(step.snum, step.pnum, Truncate(step.data)), slot, 0))
    ensures step.ReaderCheck? && s.reader.NoRead? ==>
              && (s.begin == s.end <==> |s.pushed| == |s.popped|)
              && Next(s, step) == if s.begin == s.end then s else s.(reader := Reading(0, 0, 0, 0, []))
  {
    hide SlotsHold, WriterOk, ReaderOk;
    NextInv(s, step);
    FullWhen(|s.pushed|, |s.popped|);
    EmptyWhen(|s.pushed|, |s.popped|);
  }

  /** What publishing does. */
  lemma Facts(s: State)
    requires Inv(s)
    ensures WellFormed(s)
    ensures s.writer.Writing? && s.writer.step == 3 + |s.writer.event.data| ==>
              var t := Next(s, WriterStep);
              Inv(t) && t == s.(begin := s.writer.slot, writer := NoWrite, pushed := s.pushed + [s.writer.event])
    ensures s.reader.Reading? && Complete(s.reader) ==>
              var t := Next(s, ReaderStep);
              var r := s.reader;
              var e := Event(r.snum, r.pnum, r.data);
              Inv(t) && t == s.(end := (s.end + 1) % SLOTS, reader := NoRead, popped := s.popped + [e])
  {
    hide SlotsHold, WriterOk, ReaderOk;
    NextInv(s, WriterStep);
    NextInv(s, ReaderStep);
  }

  lemma PoppedLast(s: State)
    requires Inv(s)
    ensures |s.popped| <= |s.pushed| && s.popped == ([ZERO] + s.pushed)[..|s.popped|]
  {
  }

  lemma EmptyWhen(pushed: nat, popped: nat)
    requires popped <= pushed < popped + SLOTS
    ensures pushed % SLOTS == popped % SLOTS <==> pushed == popped
  {
  }

  lemma WholeSlot(s: State)
    requires Inv(s)
    ensures s.elem[s.end].Holds(History(s)[|s.popped|])
  {
    assert s.elem[|s.popped| % SLOTS].Holds(History(s)[|s.popped|]);
  }
}
