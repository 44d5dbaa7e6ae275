/** The entropy pools: what each event adds to them and what they hold after any history. */
module FortunaPools {
  import opened BigEndian
  import opened Bytes
  import opened FortunaLog
  import opened FortunaRing

  const POOLS: nat := 32
  const MAX_EVENT: nat := 32

  function Shortened(data: seq<byte>): (r: seq<byte>)
    ensures r <= data && |r| == if |data| < 32 then |data| else 32
  {
    if |data| < MAX_EVENT then data else data[..MAX_EVENT]
  }

  function Header(e: Event): seq<byte> {
    [ByteOf(e.snum % 256), ByteOf(|Shortened(e.data)|)]
  }

  function EventBytes(e: Event): seq<byte> {
    Header(e) + Shortened(e.data)
  }

  /** after is before with two bytes more, source number and length, and then the first 32 bytes of the data. */
  ghost predicate Carries(before: seq<byte>, e: Event, after: seq<byte>) {
    var n, d := |before|, if |e.data| < 32 then |e.data| else 32;
    && |after| == n + 2 + d && after[..n] == before
    && after[n] as int == e.snum % 256 && after[n + 1] as int == d && after[n + 2..] == e.data[..d]
  }

  lemma EventCarried(before: seq<byte>, e: Event)
    ensures Carries(before, e, before + EventBytes(e))
  {
    hide ByteOf;
    ByteOfNat(e.snum % 256);
    ByteOfNat(|Shortened(e.data)|);
    assert e.data[..|Shortened(e.data)|] == Shortened(e.data);
  }

  /** A failed call leaves the pool without the event, or with its header only. */
  predicate PartlyAdded(before: seq<seq<byte>>, e: Event, after: seq<seq<byte>>) {
    e.pnum < |before| && (after == before || after == before[e.pnum := before[e.pnum] + Header(e)])
  }

  predicate AllPools(events: seq<Event>) {
    forall i :: 0 <= i < |events| ==> events[i].pnum < POOLS
  }

  /** The pools with the events absorbed in order. */
  function Absorbed(pools: seq<seq<byte>>, events: seq<Event>): (r: seq<seq<byte>>)
    requires |pools| == POOLS && AllPools(events)
    ensures |r| == POOLS
  {
    if events == [] then pools else
    var n := |events| - 1;
    var before := Absorbed(pools, events[..n]);
    before[events[n].pnum := before[events[n].pnum] + EventBytes(events[n])]
  }

  lemma AbsorbedNext(pools: seq<seq<byte>>, events: seq<Event>, e: Event)
    requires |pools| == POOLS && AllPools(events)
    ensures (events + [e])[..|events|] == events
    ensures e.pnum < POOLS ==>
              var before := Absorbed(pools, events);
              && AllPools(events + [e])
              && Absorbed(pools, events + [e]) == before[e.pnum := before[e.pnum] + EventBytes(e)]
  {
    assert (events + [e])[..|events|] == events;
  }

  // ----- Everything that has happened to the pools

  /** How much of an event has reached its pool. */
  datatype Part = Nothing | HeaderOnly | Whole

  /** An event given to its pool, or a pool restarted with its digest. */
  datatype Feed = Fed(event: Event, quick: bool, part: Part) | Restarted(pool: nat)

  function Apply(hash: seq<byte> -> Key, pools: seq<seq<byte>>, f: Feed): (r: seq<seq<byte>>)
    ensures |r| == |pools|
  {
    match f
    case Restarted(k) => if k < |pools| then pools[k := hash(pools[k])] else pools
    case Fed(e, _, part) =>
      if e.pnum >= |pools| || part.Nothing? then pools
      else pools[e.pnum := pools[e.pnum] + if part.Whole? then EventBytes(e) else Header(e)]
  }

  function EmptyPools(): (pools: seq<seq<byte>>)
    ensures |pools| == POOLS
  {
    seq(POOLS, _ => [])
  }

  /** The pools after a history that began with empty ones. */
  function Replay(hash: seq<byte> -> Key, feeds: seq<Feed>): (pools: seq<seq<byte>>)
    ensures |pools| == POOLS
  {
    if feeds == [] then EmptyPools()
    else Apply(hash, Replay(hash, feeds[..|feeds| - 1]), feeds[|feeds| - 1])
  }

  lemma EmptyHistory(hash: seq<byte> -> Key)
    ensures Replay(hash, []) == EmptyPools()
  {
  }

  lemma RestartApplied(hash: seq<byte> -> Key, pools: seq<seq<byte>>, k: nat)
    requires k < |pools|
    ensures Apply(hash, pools, Restarted(k)) == pools[k := hash(pools[k])]
  {
  }

  /** What an event does to its pool, as far as it gets. */
  lemma FedApplied(hash: seq<byte> -> Key, pools: seq<seq<byte>>, e: Event, quick: bool)
    ensures Apply(hash, pools, Fed(e, quick, Nothing)) == pools
    ensures e.pnum < |pools| ==>
              var header, data := pools[e.pnum] + Header(e), Shortened(e.data);
              && Apply(hash, pools, Fed(e, quick, HeaderOnly)) == pools[e.pnum := header]
              && Apply(hash, pools, Fed(e, quick, Whole)) == pools[e.pnum := header][e.pnum := header + data]
              && Apply(hash, pools, Fed(e, quick, Whole)) == pools[e.pnum := pools[e.pnum] + EventBytes(e)]
  {
    hide Header, Shortened;
    if e.pnum < |pools| {
      AppendAssociates(pools[e.pnum], Header(e), Shortened(e.data));
    }
  }

  lemma ReplayNext(hash: seq<byte> -> Key, feeds: seq<Feed>, f: Feed)
    ensures Replay(hash, feeds + [f]) == Apply(hash, Replay(hash, feeds), f)
  {
    assert (feeds + [f])[..|feeds|] == feeds;
  }

  /** The events that came through the ring buffer. */
  function QuickEvents(feeds: seq<Feed>): seq<Event> {
    if feeds == [] then [] else
    var f := feeds[|feeds| - 1];
    QuickEvents(feeds[..|feeds| - 1]) + if f.Fed? && f.quick then [f.event] else []
  }

  lemma QuickNext(feeds: seq<Feed>, f: Feed)
    ensures QuickEvents(feeds + [f]) == QuickEvents(feeds) + if f.Fed? && f.quick then [f.event] else []
  {
    assert (feeds + [f])[..|feeds|] == feeds;
  }

  function WithData(events: seq<Event>): seq<Event> {
    if events == [] then [] else
    var e := events[|events| - 1];
    WithData(events[..|events| - 1]) + if e.data == [] then [] else [e]
  }

  lemma WithDataNext(events: seq<Event>, e: Event)
    ensures WithData(events + [e]) == WithData(events) + if e.data == [] then [] else [e]
  {
    assert (events + [e])[..|events|] == events;
  }

  /** Of every event exactly those with data stay, in their places. */
  lemma {:induction false} WithDataAt(a: seq<Event>, e: Event, b: seq<Event>)
    ensures WithData([]) == []
    ensures WithData(a + [e] + b) == WithData(a) + (if e.data == [] then [] else [e]) + WithData(b)
    decreases |b|
  {
    hide WithData;
    if b == [] {
      WithDataNext(a, e);
      assert a + [e] + b == a + [e];
      NothingLeft();
    } else {
      var n := |b| - 1;
      WithDataAt(a, e, b[..n]);
      assert a + [e] + b == a + [e] + b[..n] + [b[n]] && b[..n] + [b[n]] == b;
      WithDataNext(a + [e] + b[..n], b[n]);
      WithDataNext(b[..n], b[n]);
    }
  }

  lemma NothingLeft()
    ensures WithData([]) == [] && QuickEvents([]) == []
  {
  }

  /** Of everything that has happened exactly the quick events stay. */
  lemma {:induction false} QuickEventsAt(a: seq<Feed>, f: Feed, b: seq<Feed>)
    ensures QuickEvents([]) == []
    ensures QuickEvents(a + [f] + b) == QuickEvents(a) + (if f.Fed? && f.quick then [f.event] else []) + QuickEvents(b)
    decreases |b|
  {
    hide QuickEvents;
    if b == [] {
      QuickNext(a, f);
      assert a + [f] + b == a + [f];
      NothingLeft();
    } else {
      var n := |b| - 1;
      QuickEventsAt(a, f, b[..n]);
      assert a + [f] + b == a + [f] + b[..n] + [b[n]] && b[..n] + [b[n]] == b;
      QuickNext(a + [f] + b[..n], b[n]);
      QuickNext(b[..n], b[n]);
    }
  }

  /** The zeroed first slot adds nothing. */
  lemma {:induction false} WithDataZero(events: seq<Event>)
    ensures WithData([ZERO] + events) == WithData(events)
  {
    if events == [] {
      assert ([ZERO] + events)[..0] == [];
    } else {
      var n := |events| - 1;
      WithDataZero(events[..n]);
      assert ([ZERO] + events)[..|events|] == [ZERO] + events[..n];
    }
  }

  /** No event has been given to its pool only in part. */
  ghost predicate AllFedWhole(feeds: seq<Feed>) {
    forall i :: 0 <= i < |feeds| ==> feeds[i].Fed? ==> feeds[i].part.Whole?
  }

  lemma FedWholeNext(feeds: seq<Feed>, f: Feed)
    ensures AllFedWhole(feeds) && (f.Fed? ==> f.part.Whole?) ==> AllFedWhole(feeds + [f])
    ensures f.Fed? && !f.part.Whole? ==> !AllFedWhole(feeds + [f])
  {
    assert (feeds + [f])[|feeds|] == f;
  }

  /** The events arriving from interrupts while the ring is drained name pools that exist. */
  ghost predicate AllArrivals(arrivals: seq<seq<Event>>) {
    forall i :: 0 <= i < |arrivals| ==> AllPools(arrivals[i])
  }

  ghost predicate AllDuring(arrivals: nat -> seq<seq<Event>>) {
    forall i :: AllArrivals(arrivals(i))
  }

  lemma DuringKnown(arrivals: nat -> seq<seq<Event>>, i: nat)
    ensures AllDuring(arrivals) ==> AllArrivals(arrivals(i))
  {
  }

  lemma ArrivalsKnown(arrivals: seq<seq<Event>>, i: nat)
    requires i < |arrivals|
    ensures AllArrivals(arrivals) ==> AllPools(arrivals[i])
  {
  }

  /** The pushes accepted after some more, none of them popped meanwhile: those that find the ring full are lost. */
  function Accepted(pushed: seq<Event>, popped: nat, events: seq<Event>): seq<Event> {
    if events == [] then pushed else
    var before, e := Accepted(pushed, popped, events[..|events| - 1]), events[|events| - 1];
    if |before| + 1 == popped + SLOTS then before else before + [Event(e.snum, e.pnum, Truncate(e.data))]
  }

  lemma AcceptedNext(pushed: seq<Event>, popped: nat, events: seq<Event>, e: Event)
    ensures var before := Accepted(pushed, popped, events);
            Accepted(pushed, popped, events + [e]) ==
            if |before| + 1 == popped + SLOTS then before else before + [Event(e.snum, e.pnum, Truncate(e.data))]
  {
    assert (events + [e])[..|events|] == events;
  }

  /** As long as there is room, all of them are accepted, each cut to four bytes. */
  lemma {:induction false} AcceptedAll(pushed: seq<Event>, popped: nat, events: seq<Event>)
    requires |pushed| + |events| < popped + SLOTS
    ensures var r := Accepted(pushed, popped, events);
            && |r| == |pushed| + |events| && r[..|pushed|] == pushed
            && forall i :: 0 <= i < |events| ==>
                 var e, d := events[i], if |events[i].data| < 4 then |events[i].data| else 4;
                 r[|pushed| + i] == Event(e.snum, e.pnum, e.data[..d])
  {
    if events != [] {
      AcceptedAll(pushed, popped, events[..|events| - 1]);
    }
  }

  /** Pushes of any number of events. */
  method Arrive(ring: RingBuffer, events: seq<Event>)
    requires ring.Valid() && ring.Idle()
    modifies ring, ring.elem
    ensures ring.Valid() && ring.Idle() && ring.st.popped == old(ring.st.popped)
    ensures ring.st.pushed == Accepted(old(ring.st.pushed), |ring.st.popped|, events)
    ensures old(ring.st.pushed) <= ring.st.pushed
    ensures AllPools(events) && AllPools(old(ring.st.pushed)) ==> AllPools(ring.st.pushed)
  {
    hide Inv, SlotsHold, Accepted;
    NoneAccepted(ring.st.pushed, |ring.st.popped|);
    for i := 0 to |events|
      invariant ring.Valid() && ring.Idle() && ring.st.popped == old(ring.st.popped)
      invariant ring.st.pushed == Accepted(old(ring.st.pushed), |ring.st.popped|, events[..i])
      invariant old(ring.st.pushed) <= ring.st.pushed
      invariant AllPools(events) && AllPools(old(ring.st.pushed)) ==> AllPools(ring.st.pushed)
    {
      AcceptedNext(old(ring.st.pushed), |ring.st.popped|, events[..i], events[i]);
      assert events[..i + 1] == events[..i] + [events[i]];
      ring.Push(events[i].snum, events[i].pnum, events[i].data);
    }
    assert events[..|events|] == events;
  }

  lemma NoneAccepted(pushed: seq<Event>, popped: nat)
    ensures Accepted(pushed, popped, []) == pushed
  {
  }

  /** Everything accepted has been popped, or the last event popped had no data. */
  predicate Exhausted(pushed: seq<Event>, popped: seq<Event>) {
    |popped| == |pushed| || (popped != [] && popped[|popped| - 1].data == [])
  }

  /** What has been fed, popped and pushed stays so. */
  predicate Extends(fed: seq<Feed>, popped: seq<Event>, pushed: seq<Event>,
                    fed': seq<Feed>, popped': seq<Event>, pushed': seq<Event>) {
    fed <= fed' && popped <= popped' && pushed <= pushed'
  }

  lemma ExtendsOn(fed: seq<Feed>, popped: seq<Event>, pushed: seq<Event>,
                  fed': seq<Feed>, popped': seq<Event>, pushed': seq<Event>,
                  fed'': seq<Feed>, popped'': seq<Event>, pushed'': seq<Event>)
    requires Extends(fed, popped, pushed, fed', popped', pushed')
    requires Extends(fed', popped', pushed', fed'', popped'', pushed'')
    ensures Extends(fed, popped, pushed, fed'', popped'', pushed'')
  {
  }

  lemma ExtendsSelf(fed: seq<Feed>, popped: seq<Event>, pushed: seq<Event>)
    ensures Extends(fed, popped, pushed, fed, popped, pushed)
  {
  }

  /** What had arrived before the first pop. */
  function First(arrivals: seq<seq<Event>>): seq<Event> {
    if arrivals == [] then [] else arrivals[0]
  }
}
