/** Whole lives of a generator, whatever is asked of it and whichever calls fail. */
module FortunaRuns {
  import opened Arithmetic
  import opened Bytes
  import opened Fortuna
  import opened FortunaLog
  import opened FortunaPools
  import opened FortunaRing

  /**
   * What the outside asks: random data, or the handling of an event. Quick events go into the ring buffer; after a
   * slow one and after each read the ring is drained, while further events arrive.
   */
  datatype Op =
    | Random(blen: nat, limited: nat -> bool, during: nat -> seq<seq<Event>>)
    | Slow(event: Event, arrivals: seq<seq<Event>>)
    | Quick(event: Event)

  /** All events the operation may bring name pools that exist. */
  ghost predicate KnownPools(op: Op) {
    match op
    case Random(_, _, during) => AllDuring(during)
    case Slow(event, arrivals) => event.pnum < POOLS && AllArrivals(arrivals)
    case Quick(event) => event.pnum < POOLS
  }

  ghost predicate AllFit(pieces: seq<Piece>) {
    forall i :: 0 <= i < |pieces| ==> pieces[i].len <= MIB && pieces[i].Fits()
  }

  datatype Outcome = Outcome(status: Status, data: seq<byte>)

  /** All the data delivered. */
  function Delivered(results: seq<Outcome>): seq<byte> {
    if results == [] then [] else Delivered(results[..|results| - 1]) + results[|results| - 1].data
  }

  lemma DeliveredNext(results: seq<Outcome>, res: Outcome)
    ensures Delivered(results + [res]) == Delivered(results) + res.data
  {
    assert (results + [res])[..|results|] == results;
  }

  lemma DeliveredNothing(encrypt: (Key, Counter) -> Block)
    ensures Delivered([]) == [] && Output(encrypt, []) == [] && AllUses([]) == []
  {
  }

  predicate Served(op: Op, res: Outcome) {
    res.status == Success && (op.Random? ==> |res.data| == op.blen)
  }

  /** What can be seen of generator and ring between two operations. */
  datatype Snapshot = Snapshot(alive: bool, pushed: seq<Event>, popped: seq<Event>, fed: seq<Feed>)

  ghost function Seen(g: Generator, ring: RingBuffer): Snapshot
    reads g, ring
  {
    Snapshot(g.alive, ring.st.pushed, ring.st.popped, g.fed)
  }

  /**
   * What an operation does to ring and pools: a quick event is accepted unless the ring is full, a slow one is given
   * to its pool, and after that and after a successful read the ring has been drained.
   */
  ghost predicate Effect(op: Op, a: Snapshot, b: Snapshot) {
    && a.pushed <= b.pushed && a.popped <= b.popped && a.fed <= b.fed
    && match op
       case Quick(e) => b == a.(pushed := Accepted(a.pushed, |a.popped|, [e]))
       case Slow(e, arrivals) =>
         if !a.alive then b == a
         else
           && b.alive && GivenNext(a.fed, b.fed, e)
           && Accepted(a.pushed, |a.popped|, First(arrivals)) <= b.pushed
           && (AllFedWhole(b.fed) ==> Exhausted(b.pushed, b.popped))
       case Random(blen, _, _) =>
         if !a.alive || blen == 0 then b == a else b.alive ==> Exhausted(b.pushed, b.popped)
  }

  /** The slow event e is the first the pools are given. */
  predicate GivenNext(before: seq<Feed>, after: seq<Feed>, e: Event) {
    |after| > |before| && after[|before|].Fed? && after[|before|].event == e && !after[|before|].quick
  }

  lemma GivenPrefix(before: seq<Feed>, f: Feed, after: seq<Feed>)
    requires before + [f] <= after && f.Fed? && !f.quick
    ensures before <= after && GivenNext(before, after, f.event)
  {
    assert after[|before|] == (before + [f])[|before|];
  }

  lemma OneAccepted(pushed: seq<Event>, popped: nat, e: Event)
    ensures Accepted(pushed, popped, [e]) ==
            if |pushed| + 1 == popped + SLOTS then pushed else pushed + [Event(e.snum, e.pnum, Truncate(e.data))]
  {
    AcceptedNext(pushed, popped, [], e);
  }

  /** A slow event goes to its pool, and the ring is drained; neither result is looked at. */
  method AddSlow(g: Generator, ring: RingBuffer, event: Event, arrivals: seq<seq<Event>>)
    requires g.Ready() && g.alive && g.Linked(ring)
    modifies g, ring, ring.elem
    ensures g.Ready() && g.alive && g.Linked(ring) && g.calls >= old(g.calls)
    ensures g.log == old(g.log) && g.ticks == old(g.ticks)
    ensures Effect(Slow(event, arrivals), old(Seen(g, ring)), Seen(g, ring))
    ensures AllArrivals(arrivals) && AllPools(old(ring.st.pushed)) ==> AllPools(ring.st.pushed)
    ensures AllArrivals(arrivals) && AllPools(old(ring.st.pushed)) && Clean(g.fails, old(g.calls), g.calls) ==>
              (event.pnum < POOLS && old(AllFedWhole(g.fed)) ==> AllFedWhole(g.fed))
  {
    hide CounterAt, LogOk, UsesOf, WithinLimit, Generator.PoolsOk, Replay, QuickEvents, WithData, Inv, Clean;
    hide AllPools, AllFedWhole, AllArrivals, Absorbed, PartlyAdded, Accepted, Exhausted, First, GivenNext;
    var _, f := g.AddEvent(event, false);
    QuickNext(old(g.fed), f);
    FedWholeNext(old(g.fed), f);
    ghost var c := g.calls;
    var _, _ := g.Drain(ring, arrivals);
    CleanParts(g.fails, old(g.calls), c, g.calls);
    GivenPrefix(old(g.fed), f, g.fed);
  }

  /** One operation; a slow event for a generator that has ended is not modelled and does nothing here. */
  method Perform(g: Generator, ring: RingBuffer, op: Op) returns (res: Outcome, ghost pieces: seq<Piece>)
    requires g.Ready() && g.Linked(ring)
    modifies g, ring, ring.elem
    ensures g.Ready() && g.Linked(ring) && g.calls >= old(g.calls) && res.data == Output(g.encrypt, pieces)
    ensures g.log == old(g.log) + AllUses(pieces) && AllFit(pieces)
    ensures g.ticks + |old(g.log)| <= old(g.ticks) + |pieces| + |g.log|
    ensures Effect(op, old(Seen(g, ring)), Seen(g, ring))
    ensures res.status == Success && op.Random? ==> |res.data| == op.blen
    ensures op.Random? && op.blen > 0 && !old(g.alive) ==> res.status == BadState
    ensures KnownPools(op) && AllPools(old(ring.st.pushed)) ==> AllPools(ring.st.pushed)
    ensures KnownPools(op) && AllPools(old(ring.st.pushed)) && old(g.alive) && Clean(g.fails, old(g.calls), g.calls) ==>
              g.alive && res.status == Success && (old(AllFedWhole(g.fed)) ==> AllFedWhole(g.fed))
  {
    NothingUsed(g.encrypt);
    hide CounterAt, LogOk, UsesOf, WithinLimit, Stream, Uses, AllUses, Output, WellCut, Clean;
    hide Generator.PoolsOk, Replay, QuickEvents, WithData, Inv;
    hide AllPools, AllFedWhole, AllArrivals, Accepted, Exhausted, First, GivenNext;
    res, pieces := Outcome(Success, []), [];
    match op {
      case Random(blen, limited, during) =>
        var r, buf;
        r, buf, pieces := g.RngRead(blen, limited, ring, during);
        res := Outcome(r, buf);
        CutFits(pieces);
      case Slow(event, arrivals) =>
        if g.alive {
          AddSlow(g, ring, event, arrivals);
        }
      case Quick(event) =>
        OneAccepted(ring.st.pushed, |ring.st.popped|, event);
        ring.Push(event.snum, event.pnum, event.data);
        PoolsNext(old(ring.st.pushed), Event(event.snum, event.pnum, Truncate(event.data)));
    }
  }

  lemma NothingUsed(encrypt: (Key, Counter) -> Block)
    ensures AllUses([]) == [] && Output(encrypt, []) == [] && AllFit([])
  {
  }

  lemma CutFits(pieces: seq<Piece>)
    requires WellCut(pieces, MIB)
    ensures AllFit(pieces)
  {
  }

  lemma PoolsNext(events: seq<Event>, e: Event)
    ensures AllPools(events) && e.pnum < POOLS ==> AllPools(events + [e])
  {
  }

  /**
   * The record of a run is the list of all its encryptions: what its reads have delivered and, for each, the next
   * key. The counter moves on once for each encryption and at most once more for each piece, so no counter value is
   * in the record twice before it holds 2^128 less the number of pieces; no key is used more than 65,538 times
   * between two key changes. The pools hold what the events and restarts of the run have made of them, and the quick
   * events among these are the accepted pushes with data, in order, each once, up to those still in the ring.
   * Without a failed call everything asked for is delivered and every event taken is added whole. The trace shows
   * what each operation does to ring and pools.
   */
  method Execute(encrypt: (Key, Counter) -> Block, hash: seq<byte> -> Key, fails: nat -> bool, seed: seq<byte>,
                 ops: seq<Op>)
      returns (started: Status, results: seq<Outcome>, g: Generator, ring: RingBuffer,
               ghost pieces: seq<Piece>, ghost trace: seq<Snapshot>)
    ensures fresh(g) && g.encrypt == encrypt && g.hash == hash && g.fails == fails && |results| == |ops|
    ensures started == Success <==> Clean(fails, 0, INIT_CALLS)
    ensures Delivered(results) == Output(encrypt, pieces) && g.log == AllUses(pieces)
    ensures AllFit(pieces)
    ensures LogOk(g.log, g.ticks, g.epoch, g.key) && WithinLimit(g.log)
    ensures g.ticks <= 1 + |g.log| + |pieces|
    ensures 1 + |g.log| + |pieces| <= TWO128 ==>
              forall i, j :: 0 <= i < j < |g.log| ==> g.log[i].counter != g.log[j].counter
    ensures |trace| == |ops| + 1 && trace[0] == Snapshot(started == Success, [], [], [])
    ensures trace[|ops|] == Seen(g, ring) && forall i :: 0 <= i < |ops| ==> Effect(ops[i], trace[i], trace[i + 1])
    ensures g.pools == Replay(hash, g.fed)
    ensures var k := if ring.st.popped == [] then 0 else |ring.st.popped| - 1;
            k <= |ring.st.pushed| < k + SLOTS + 1 && QuickEvents(g.fed) == WithData(ring.st.pushed[..k])
    ensures Clean(fails, 0, g.calls) && (forall i :: 0 <= i < |ops| ==> KnownPools(ops[i])) ==>
              && started == Success && AllFedWhole(g.fed)
              && forall i :: 0 <= i < |ops| ==> Served(ops[i], results[i])
  {
    DeliveredNothing(encrypt);
    NothingFed();
    hide CounterAt, LogOk, UsesOf, WithinLimit, Stream, Uses, KnownPools, Delivered, AllUses, Output;
    hide Generator.PoolsOk, Replay, QuickEvents, WithData, Inv, AllPools, AllFedWhole, Effect;
    g := new Generator(encrypt, hash, fails);
    ring := new RingBuffer();
    started := g.Init(seed);
    results, pieces, trace := [], [], [Seen(g, ring)];
    for i := 0 to |ops|
      invariant fresh(g) && fresh(ring) && fresh(ring.elem) && g.Ready() && g.Linked(ring)
      invariant g.encrypt == encrypt && g.hash == hash && g.fails == fails && |results| == i
      invariant Delivered(results) == Output(encrypt, pieces) && g.log == AllUses(pieces)
      invariant AllFit(pieces) && g.ticks <= 1 + |g.log| + |pieces|
      invariant |trace| == i + 1 && trace[0] == Snapshot(started == Success, [], [], []) && trace[i] == Seen(g, ring)
      invariant forall j :: 0 <= j < i ==> Effect(ops[j], trace[j], trace[j + 1])
      invariant Clean(fails, 0, g.calls) && (forall j :: 0 <= j < i ==> KnownPools(ops[j])) ==>
                  && started == Success && g.alive && AllPools(ring.st.pushed) && AllFedWhole(g.fed)
                  && forall j :: 0 <= j < i ==> Served(ops[j], results[j])
    {
      var res;
      ghost var more;
      ghost var c := g.calls;
      res, more := Perform(g, ring, ops[i]);
      CleanParts(fails, 0, c, g.calls);
      UsesOfPieces(encrypt, pieces, more);
      OutputOfPieces(encrypt, pieces, more);
      DeliveredNext(results, res);
      results, pieces, trace := results + [res], pieces + more, trace + [Seen(g, ring)];
    }
    if g.ticks <= TWO128 {
      NoCounterReused(g.log, g.ticks, g.epoch, g.key);
    }
    PoppedPushes(ring.st);
    g.PoolsReplayed();
  }

  lemma NothingFed()
    ensures QuickEvents([]) == WithData([]) == [] && AllPools([]) && AllFedWhole([])
  {
  }

  /** What has been popped from the ring with data are the first accepted pushes with data. */
  lemma PoppedPushes(s: State)
    requires Inv(s)
    ensures var k := if s.popped == [] then 0 else |s.popped| - 1;
            k <= |s.pushed| < k + SLOTS + 1 && WithData(s.popped) == WithData(s.pushed[..k])
  {
    hide WithData;
    PoppedLast(s);
    if s.popped == [] {
      assert s.popped == s.pushed[..0];
    } else {
      var k := |s.popped| - 1;
      assert ([ZERO] + s.pushed)[..k + 1] == [ZERO] + s.pushed[..k];
      WithDataZero(s.pushed[..k]);
    }
  }
}
