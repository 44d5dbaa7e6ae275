/** Loading a binary and everything it depends on: a queue that grows while it is walked. */
module Loader {
  type Uuid = nat

  const ZERO: Uuid := 0

  datatype Binary = Binary(is32: bool, needed: seq<Uuid>)

  datatype Event = Loaded(uuid: Uuid) | Relocated(uuid: Uuid)

  datatype Status = Success | BadParameters | Aborted

  ghost predicate Distinct(q: seq<Uuid>) {
    forall i, j :: 0 <= i < j < |q| ==> q[i] != q[j]
  }

  /** The queue after each of the given binaries not yet in it has been appended. */
  function Enqueued(q: seq<Uuid>, more: seq<Uuid>): seq<Uuid> {
    if more == [] then q else
    var r := Enqueued(q, more[..|more| - 1]);
    var u := more[|more| - 1];
    if u in r then r else r + [u]
  }

  lemma {:induction false} EnqueuedFacts(q: seq<Uuid>, more: seq<Uuid>)
    ensures q <= Enqueued(q, more)
    ensures forall u :: u in Enqueued(q, more) <==> u in q || u in more
    ensures Distinct(q) ==> Distinct(Enqueued(q, more))
  {
    if more != [] {
      var n := |more| - 1;
      EnqueuedFacts(q, more[..n]);
      assert more == more[..n] + [more[n]];
    }
  }

  /** Where u first occurs. */
  function First(more: seq<Uuid>, u: Uuid): (k: nat)
    requires u in more
    ensures k < |more| && more[k] == u && u !in more[..k]
  {
    if more[0] == u then 0 else
    var k := First(more[1..], u);
    assert forall i :: 0 < i < k + 1 ==> more[i] == more[1..][i - 1] == more[1..][..k][i - 1];
    k + 1
  }

  /** The entries behind q were asked for, and stand in the order in which they were first asked for. */
  ghost predicate InOrder(q: seq<Uuid>, more: seq<Uuid>, r: seq<Uuid>) {
    && q <= r && (forall a :: |q| <= a < |r| ==> r[a] in more)
    && forall a, b :: |q| <= a < b < |r| ==> First(more, r[a]) < First(more, r[b])
  }

  lemma FirstUnique(more: seq<Uuid>, u: Uuid, k: nat)
    requires k < |more| && more[k] == u && u !in more[..k]
    ensures First(more, u) == k
  {
  }

  lemma FirstStays(more: seq<Uuid>, u: Uuid, v: Uuid)
    requires u in more
    ensures First(more + [v], u) == First(more, u)
  {
    var k := First(more, u);
    assert (more + [v])[..k] == more[..k];
    FirstUnique(more + [v], u, k);
  }

  lemma {:induction false} EnqueuedOrder(q: seq<Uuid>, more: seq<Uuid>)
    ensures InOrder(q, more, Enqueued(q, more))
  {
    if more != [] {
      var n := |more| - 1;
      var init, u, r := more[..n], more[n], Enqueued(q, more[..n]);
      EnqueuedOrder(q, init);
      EnqueuedFacts(q, init);
      assert init + [u] == more;
      forall a | |q| <= a < |r| ensures r[a] in more && First(more, r[a]) == First(init, r[a]) < n {
        FirstStays(init, r[a], u);
      }
      if u !in r {
        FirstUnique(more, u, n);
      }
    }
  }

  /** The first n binaries of the queue are there and what they need is in the queue. */
  ghost predicate Satisfied(binaries: map<Uuid, Binary>, q: seq<Uuid>, n: nat)
    requires n <= |q|
  {
    forall i :: 0 <= i < n ==> q[i] in binaries && forall d :: d in binaries[q[i]].needed ==> d in q
  }

  /** s holds what its members need. */
  ghost predicate Closed(binaries: map<Uuid, Binary>, s: set<Uuid>) {
    forall u, d :: u in s && u in binaries && d in binaries[u].needed ==> d in s
  }

  /** Nothing is in the queue that the roots do not lead to. */
  ghost predicate Needed(binaries: map<Uuid, Binary>, roots: set<Uuid>, q: seq<Uuid>) {
    forall s: set<Uuid> :: roots <= s && Closed(binaries, s) ==> forall u :: u in q ==> u in s
  }

  /** The queue holds exactly the closure of the roots under dependency. */
  ghost predicate IsClosure(binaries: map<Uuid, Binary>, roots: set<Uuid>, q: seq<Uuid>) {
    && (forall u :: u in roots ==> u in q)
    && Satisfied(binaries, q, |q|) && Needed(binaries, roots, q)
  }

  lemma {:induction false} DistinctBound(q: seq<Uuid>, s: set<Uuid>)
    requires Distinct(q) && forall u :: u in q ==> u in s
    ensures |q| <= |s|
  {
    if q != [] {
      var n := |q| - 1;
      assert q[n] in q && forall u :: u in q[..n] ==> u in q;
      DistinctBound(q[..n], s - {q[n]});
    }
  }

  lemma NeededMore(binaries: map<Uuid, Binary>, roots: set<Uuid>, q: seq<Uuid>, u: Uuid)
    requires Needed(binaries, roots, q) && u in q && u in binaries
    ensures Needed(binaries, roots, Enqueued(q, binaries[u].needed))
  {
    EnqueuedFacts(q, binaries[u].needed);
  }

  lemma SatisfiedMore(binaries: map<Uuid, Binary>, q: seq<Uuid>, n: nat)
    requires n < |q| && Satisfied(binaries, q, n) && q[n] in binaries
    ensures var q' := Enqueued(q, binaries[q[n]].needed);
            n < |q'| && Satisfied(binaries, q', n + 1)
  {
    EnqueuedFacts(q, binaries[q[n]].needed);
  }

  function Loads(q: seq<Uuid>): seq<Event> {
    seq(|q|, i requires 0 <= i < |q| => Loaded(q[i]))
  }

  function Relocations(q: seq<Uuid>): seq<Event> {
    seq(|q|, i requires 0 <= i < |q| => Relocated(q[i]))
  }

  lemma LoadsNext(q: seq<Uuid>, a: nat, i: nat)
    requires a <= i < |q|
    ensures (if i <= a then [] else Loads(q[a..i])) + [Loaded(q[i])] == Loads(q[a..i + 1])
  {
  }

  lemma SatisfiedBound(binaries: map<Uuid, Binary>, q: seq<Uuid>, n: nat)
    requires Distinct(q) && n <= |q| && Satisfied(binaries, q, n)
    ensures n <= |binaries|
  {
    assert forall u :: u in q[..n] ==> u in binaries.Keys;
    DistinctBound(q[..n], binaries.Keys);
  }

  // ----- The order of loading and relocating

  /** Where batch c starts; cuts says where each batch ends. */
  function BatchStart(cuts: seq<nat>, c: nat): nat
    requires c <= |cuts|
  {
    if c == 0 then 0 else cuts[c - 1]
  }

  ghost predicate IsCut(q: seq<Uuid>, cuts: seq<nat>) {
    forall c :: 0 <= c < |cuts| ==> BatchStart(cuts, c) <= cuts[c] <= |q|
  }

  /** Each batch is loaded and then relocated. */
  ghost function LogOf(q: seq<Uuid>, cuts: seq<nat>): seq<Event>
    requires IsCut(q, cuts)
  {
    if cuts == [] then [] else
    var n := |cuts| - 1;
    CutPrefix(q, cuts, n);
    var batch := q[BatchStart(cuts, n)..cuts[n]];
    LogOf(q, cuts[..n]) + Loads(batch) + Relocations(batch)
  }

  lemma CutPrefix(q: seq<Uuid>, cuts: seq<nat>, n: nat)
    requires IsCut(q, cuts) && n <= |cuts|
    ensures IsCut(q, cuts[..n])
  {
    forall c | 0 <= c < n ensures BatchStart(cuts[..n], c) <= cuts[..n][c] <= |q| {
      assert BatchStart(cuts, c) <= cuts[c] <= |q|;
    }
  }

  lemma {:induction false} AllLoaded(q: seq<Uuid>, cuts: seq<nat>, k: nat)
    requires IsCut(q, cuts) && k < BatchStart(cuts, |cuts|)
    ensures k < |q| && Loaded(q[k]) in LogOf(q, cuts)
    decreases |cuts|, 1
  {
    hide IsCut, Loads, Relocations;
    EarlierLoaded(q, cuts, k);
  }

  lemma {:induction false} EarlierLoaded(q: seq<Uuid>, cuts: seq<nat>, k: nat)
    requires IsCut(q, cuts) && cuts != [] && k < cuts[|cuts| - 1]
    ensures var n := |cuts| - 1;
            && IsCut(q, cuts[..n]) && BatchStart(cuts, n) <= cuts[n] <= |q|
            && Loaded(q[k]) in LogOf(q, cuts[..n]) + Loads(q[BatchStart(cuts, n)..cuts[n]])
    decreases |cuts|, 0
  {
    var n := |cuts| - 1;
    CutPrefix(q, cuts, n);
    assert BatchStart(cuts, n) <= cuts[n] <= |q|;
    hide LogOf, IsCut, Loads;
    var a := BatchStart(cuts, n);
    if k < a {
      AllLoaded(q, cuts[..n], k);
    } else {
      LoadsHold(q, a, cuts[n], k);
    }
  }

  lemma LoadsHold(q: seq<Uuid>, a: nat, b: nat, k: nat)
    requires a <= k < b <= |q|
    ensures Loaded(q[k]) in Loads(q[a..b])
  {
    assert Loads(q[a..b])[k - a] == Loaded(q[k]);
  }

  /** When a binary is relocated its whole batch and all batches before have been loaded. */
  lemma {:induction false} LoadsFirst(q: seq<Uuid>, cuts: seq<nat>, p: nat) returns (c: nat)
    requires IsCut(q, cuts) && p < |LogOf(q, cuts)| && LogOf(q, cuts)[p].Relocated?
    ensures c < |cuts| && BatchStart(cuts, c) <= cuts[c] <= |q|
    ensures LogOf(q, cuts)[p].uuid in q[BatchStart(cuts, c)..cuts[c]]
    ensures forall k :: 0 <= k < cuts[c] ==> Loaded(q[k]) in LogOf(q, cuts)[..p]
    decreases |cuts|
  {
    var n := |cuts| - 1;
    CutPrefix(q, cuts, n);
    assert BatchStart(cuts, n) <= cuts[n] <= |q|;
    var before, batch := LogOf(q, cuts[..n]), q[BatchStart(cuts, n)..cuts[n]];
    var log := LogOf(q, cuts);
    assert log == before + Loads(batch) + Relocations(batch);
    if p < |before| {
      c := LoadsFirst(q, cuts[..n], p);
      assert log[..p] == before[..p];
    } else {
      c := n;
      assert before + Loads(batch) <= log[..p];
      forall k | 0 <= k < cuts[n] ensures Loaded(q[k]) in log[..p] {
        EarlierLoaded(q, cuts, k);
      }
    }
  }

  /** What a batch needs is in it or in an earlier one. */
  ghost predicate BatchesClosed(binaries: map<Uuid, Binary>, q: seq<Uuid>, cuts: seq<nat>) {
    forall c :: 0 <= c < |cuts| ==> cuts[c] <= |q| && Satisfied(binaries, q[..cuts[c]], cuts[c])
  }

  /** When a binary is relocated everything it needs has been loaded. */
  lemma NeedsLoadedFirst(binaries: map<Uuid, Binary>, q: seq<Uuid>, cuts: seq<nat>, p: nat)
    requires IsCut(q, cuts) && BatchesClosed(binaries, q, cuts)
    requires p < |LogOf(q, cuts)| && LogOf(q, cuts)[p].Relocated?
    ensures var u := LogOf(q, cuts)[p].uuid;
            u in binaries && forall d :: d in binaries[u].needed ==> Loaded(d) in LogOf(q, cuts)[..p]
  {
    hide LogOf, IsCut;
    var c := LoadsFirst(q, cuts, p);
    var u := LogOf(q, cuts)[p].uuid;
    var known := q[..cuts[c]];
    var i :| BatchStart(cuts, c) <= i < cuts[c] && q[i] == u;
    assert known[i] == u;
    forall d | d in binaries[u].needed ensures Loaded(d) in LogOf(q, cuts)[..p] {
      var k :| 0 <= k < |known| && known[k] == d;
      assert q[k] == d;
    }
  }

  lemma NoBatches(binaries: map<Uuid, Binary>)
    ensures BatchesClosed(binaries, [], [])
  {
  }

  lemma BatchesMore(binaries: map<Uuid, Binary>, q: seq<Uuid>, q': seq<Uuid>, cuts: seq<nat>)
    requires BatchesClosed(binaries, q, cuts) && q <= q' && Satisfied(binaries, q', |q'|)
    ensures BatchesClosed(binaries, q', cuts + [|q'|])
  {
    hide Satisfied;
    var cuts' := cuts + [|q'|];
    assert q'[..|q'|] == q';
    forall c | 0 <= c < |cuts'| ensures cuts'[c] <= |q'| && Satisfied(binaries, q'[..cuts'[c]], cuts'[c]) {
      if c < |cuts| {
        assert q'[..cuts[c]] == q[..cuts[c]];
      }
    }
  }

  class Ldelf {
    const binaries: map<Uuid, Binary>
    var queue: seq<Uuid>
    var is32: bool
    var log: seq<Event>
    ghost var requested: set<Uuid>
    ghost var cuts: seq<nat>

    /** All that was asked for is in the queue with all it needs, once each, loaded and relocated in batches. */
    ghost predicate Complete()
      reads this
    {
      && queue != [] && Distinct(queue) && IsClosure(binaries, requested, queue)
      && (forall i :: 0 <= i < |queue| ==> Loadable(queue[i]))
      && cuts != [] && cuts[|cuts| - 1] == |queue| && IsCut(queue, cuts) && log == LogOf(queue, cuts)
      && BatchesClosed(binaries, queue, cuts)
    }

    predicate Loadable(u: Uuid)
      reads this`is32
    {
      u in binaries && binaries[u].is32 == is32
    }

    constructor (binaries: map<Uuid, Binary>)
      ensures this.binaries == binaries && queue == [] && log == []
    {
      this.binaries, queue, is32, log, requested, cuts := binaries, [], false, [], {}, [];
    }

    method FindElf(uuid: Uuid) returns (found: bool)
      ensures found <==> uuid in queue
    {
      for i := 0 to |queue|
        invariant uuid !in queue[..i]
      {
        if queue[i] == uuid {
          return true;
        }
      }
      return false;
    }

    method QueueElf(uuid: Uuid) returns (added: bool)
      modifies this`queue
      ensures added <==> uuid !in old(queue)
      ensures queue == if added then old(queue) + [uuid] else old(queue)
    {
      var found := FindElf(uuid);
      if found {
        return false;
      }
      queue := queue + [uuid];
      return true;
    }

    method AddDependencies(needed: seq<Uuid>)
      modifies this`queue
      ensures InOrder(old(queue), needed, queue) && (forall u :: u in needed ==> u in queue)
      ensures queue == Enqueued(old(queue), needed)
    {
      for i := 0 to |needed|
        invariant queue == Enqueued(old(queue), needed[..i])
      {
        assert needed[..i + 1][..i] == needed[..i];
        var _ := QueueElf(needed[i]);
      }
      assert needed[..|needed|] == needed;
      EnqueuedFacts(old(queue), needed);
      EnqueuedOrder(old(queue), needed);
    }

    /** Maps the binary and queues what it needs; the load is given up if it cannot be had. */
    method Load(uuid: Uuid) returns (ok: bool)
      modifies this`queue, this`log
      ensures ok <==> Loadable(uuid)
      ensures !ok ==> queue == old(queue)
      ensures ok ==> queue == Enqueued(old(queue), binaries[uuid].needed) && log == old(log) + [Loaded(uuid)]
    {
      if uuid !in binaries || binaries[uuid].is32 != is32 {
        return false;
      }
      AddDependencies(binaries[uuid].needed);
      log := log + [Loaded(uuid)];
      return true;
    }

    /** Loads from the given place to the end of the queue, wherever that gets to; the main binary is there already. */
    method LoadFrom(first: nat) returns (ok: bool)
      requires first <= |queue| && Distinct(queue) && queue != []
      requires Satisfied(binaries, queue, if first == 0 then 1 else first) && Needed(binaries, requested, queue)
      modifies this`queue, this`log
      ensures old(queue) <= queue && Distinct(queue) && Needed(binaries, requested, queue)
      ensures ok ==> && Satisfied(binaries, queue, |queue|)
                     && log == old(log) + Loads(queue[if first == 0 then 1 else first..])
                     && forall k :: 0 < k && first <= k < |queue| ==> Loadable(queue[k])
      ensures !ok ==> exists u :: u in queue && !Loadable(u)
    {
      hide Needed, Distinct, Satisfied, Enqueued;
      ghost var start := if first == 0 then 1 else first;
      var i := first;
      while i < |queue|
        invariant first <= i <= |queue| && old(queue) <= queue && Distinct(queue)
        invariant Satisfied(binaries, queue, if i == 0 then 1 else i) && Needed(binaries, requested, queue)
        invariant log == old(log) + if i <= start then [] else Loads(queue[start..i])
        invariant forall k :: 0 < k && first <= k < i ==> Loadable(queue[k])
        decreases |binaries| + 1 - i
      {
        SatisfiedBound(binaries, queue, if i == 0 then 1 else i);
        if i > 0 {
          ghost var q := queue;
          ok := Load(queue[i]);
          if !ok {
            return;
          }
          EnqueuedFacts(q, binaries[q[i]].needed);
          NeededMore(binaries, requested, q, q[i]);
          SatisfiedMore(binaries, q, i);
          LoadsNext(queue, start, i);
        }
        i := i + 1;
      }
      assert queue[start..|queue|] == queue[start..];
      ok := true;
    }

    method RelocateFrom(first: nat)
      requires first <= |queue|
      modifies this`log
      ensures log == old(log) + Relocations(queue[first..])
    {
      for i := first to |queue|
        invariant log == old(log) + Relocations(queue[first..i])
      {
        assert queue[first..i + 1] == queue[first..i] + [queue[i]];
        log := log + [Relocated(queue[i])];
      }
      assert queue[first..|queue|] == queue[first..];
    }

    method LoadMain(main: Uuid) returns (ok: bool)
      requires queue == [] && log == []
      modifies this
      ensures requested == {main} && queue != [] && queue[0] == main && Needed(binaries, {main}, queue)
      ensures ok <==> main in binaries
      ensures ok ==> && is32 == binaries[main].is32 && log == [Loaded(main)]
                     && Distinct(queue) && Satisfied(binaries, queue, 1)
    {
      hide Distinct, Satisfied, Needed, Enqueued;
      var _ := QueueElf(main);
      assert queue == [main];
      requested := {main};
      JustMain(binaries, main);
      if main !in binaries {
        return false;
      }
      is32 := binaries[main].is32;
      ok := Load(main);
      EnqueuedFacts([main], binaries[main].needed);
      NeededMore(binaries, {main}, [main], main);
      SatisfiedMore(binaries, [main], 0);
    }

    /** Loads the main binary and everything it leads to, then relocates it all. */
    method Start(main: Uuid) returns (r: Status)
      requires queue == [] && log == []
      modifies this
      ensures r == Success ==> Complete() && queue[0] == main && main in binaries
      ensures requested == {main} && (main in binaries ==> is32 == binaries[main].is32)
      ensures r != Success ==> Needed(binaries, {main}, queue) && exists u :: u in queue && !Loadable(u)
    {
      hide Distinct, IsClosure, Satisfied, Needed, LogOf, IsCut, Loads, Relocations, BatchesClosed;
      var ok := LoadMain(main);
      if !ok {
        assert main in queue && !Loadable(main);
        return Aborted;
      }
      ok := LoadFrom(0);
      if !ok {
        return Aborted;
      }
      RelocateFrom(0);
      cuts := [|queue|];
      assert queue[0..] == queue;
      MainFirst(queue);
      FirstBatch(queue);
      assert [] + [|queue|] == [|queue|];
      NoBatches(binaries);
      BatchesMore(binaries, [], queue, []);
      MainClosure(binaries, main, queue);
      return Success;
    }

    /** Loads a further binary and what it leads to, then relocates what has been added. */
    method AddLibrary(uuid: Uuid) returns (r: Status)
      requires Complete()
      modifies this`queue, this`log, this`requested, this`cuts
      ensures requested == old(requested) + {uuid} && old(queue) <= queue && r != BadParameters
      ensures r == Success ==> Complete()
      ensures r != Success ==> Needed(binaries, requested, queue) && exists u :: u in queue && !Loadable(u)
      ensures uuid in old(queue) ==> r == Success && queue == old(queue) && log == old(log)
    {
      hide Distinct, IsClosure, Satisfied, Needed, LogOf, IsCut, Loads, Relocations, BatchesClosed;
      var found := FindElf(uuid);
      requested := requested + {uuid};
      Extends(binaries, old(requested), queue, uuid);
      if found {
        return Success;
      }
      var first := |queue|;
      queue := queue + [uuid];
      var ok := LoadFrom(first);
      if !ok {
        return Aborted;
      }
      RelocateFrom(first);
      NextBatch(old(queue), queue, cuts);
      BatchesMore(binaries, old(queue), queue, cuts);
      cuts := cuts + [|queue|];
      Closes(binaries, old(requested), old(queue), uuid, queue);
      return Success;
    }

    /** The dlopen entry: only the one combination of flags, and nothing to do for the zero UUID. */
    method Dlopen(flagsOk: bool, uuid: Uuid) returns (r: Status)
      requires Complete()
      modifies this`queue, this`log, this`requested, this`cuts
      ensures old(queue) <= queue && (r != Aborted ==> Complete())
      ensures requested == old(requested) + Asked(flagsOk, uuid)
      ensures r == BadParameters <==> !flagsOk
      ensures r == Aborted ==> Needed(binaries, requested, queue) && exists u :: u in queue && !Loadable(u)
    {
      hide Distinct, Satisfied, Needed;
      if !flagsOk {
        return BadParameters;
      }
      if uuid == ZERO {
        return Success;
      }
      r := AddLibrary(uuid);
    }
  }

  lemma JustMain(binaries: map<Uuid, Binary>, main: Uuid)
    ensures Distinct([main]) && Satisfied(binaries, [main], 0) && Needed(binaries, {main}, [main])
  {
  }

  lemma MainFirst(q: seq<Uuid>)
    requires q != []
    ensures [Loaded(q[0])] + Loads(q[1..]) == Loads(q)
  {
  }

  lemma MainClosure(binaries: map<Uuid, Binary>, main: Uuid, q: seq<Uuid>)
    requires q != [] && q[0] == main && Satisfied(binaries, q, |q|) && Needed(binaries, {main}, q)
    ensures IsClosure(binaries, {main}, q)
  {
  }

  lemma FirstBatch(q: seq<Uuid>)
    ensures IsCut(q, [|q|]) && LogOf(q, [|q|]) == Loads(q) + Relocations(q)
  {
    hide LogOf, Loads, Relocations;
    LogOfNothing(q);
    LogOfNext(q, [], |q|);
    assert [] + [|q|] == [|q|] && q[0..|q|] == q;
  }

  lemma LogOfNothing(q: seq<Uuid>)
    ensures IsCut(q, []) && LogOf(q, []) == []
  {
  }

  lemma LogOfNext(q: seq<Uuid>, cuts: seq<nat>, b: nat)
    requires IsCut(q, cuts) && BatchStart(cuts, |cuts|) <= b <= |q|
    ensures var batch := q[BatchStart(cuts, |cuts|)..b];
            IsCut(q, cuts + [b]) && LogOf(q, cuts + [b]) == LogOf(q, cuts) + Loads(batch) + Relocations(batch)
  {
    hide Loads, Relocations, IsCut, BatchStart;
    NextCut(q, cuts, b);
    SameStart(cuts, b);
    var cuts' := cuts + [b];
    assert cuts'[..|cuts|] == cuts && cuts'[|cuts|] == b;
  }

  lemma SameStart(cuts: seq<nat>, b: nat)
    ensures BatchStart(cuts + [b], |cuts|) == BatchStart(cuts, |cuts|)
  {
  }

  lemma NextCut(q: seq<Uuid>, cuts: seq<nat>, b: nat)
    requires IsCut(q, cuts) && BatchStart(cuts, |cuts|) <= b <= |q|
    ensures IsCut(q, cuts + [b])
  {
    var cuts' := cuts + [b];
    forall c | 0 <= c < |cuts'| ensures BatchStart(cuts', c) <= cuts'[c] <= |q| {
      assert c < |cuts| ==> BatchStart(cuts, c) <= cuts[c] <= |q|;
    }
  }

  lemma {:induction false} LogGrows(q: seq<Uuid>, q': seq<Uuid>, cuts: seq<nat>)
    requires IsCut(q, cuts) && q <= q'
    ensures IsCut(q', cuts) && LogOf(q', cuts) == LogOf(q, cuts)
    decreases |cuts|
  {
    hide LogOf, Loads, Relocations, IsCut;
    if cuts == [] {
      LogOfNothing(q);
      LogOfNothing(q');
    } else {
      var n := |cuts| - 1;
      var b := cuts[n];
      CutPrefix(q, cuts, n);
      LastCut(q, cuts);
      LogGrows(q, q', cuts[..n]);
      LogOfNext(q, cuts[..n], b);
      LogOfNext(q', cuts[..n], b);
      assert cuts[..n] + [b] == cuts;
      var a := BatchStart(cuts[..n], n);
      assert q'[a..b] == q[a..b];
    }
  }

  lemma LastCut(q: seq<Uuid>, cuts: seq<nat>)
    requires IsCut(q, cuts) && cuts != []
    ensures var n := |cuts| - 1; BatchStart(cuts[..n], n) <= cuts[n] <= |q|
  {
    assert BatchStart(cuts, |cuts| - 1) <= cuts[|cuts| - 1] <= |q|;
  }

  lemma NextBatch(q: seq<Uuid>, q': seq<Uuid>, cuts: seq<nat>)
    requires IsCut(q, cuts) && q <= q' && cuts != [] && cuts[|cuts| - 1] == |q|
    ensures IsCut(q', cuts + [|q'|])
    ensures LogOf(q', cuts + [|q'|]) == LogOf(q, cuts) + Loads(q'[|q|..]) + Relocations(q'[|q|..])
  {
    hide LogOf, Loads, Relocations, IsCut;
    LogGrows(q, q', cuts);
    LogOfNext(q', cuts, |q'|);
    assert q'[|q|..|q'|] == q'[|q|..];
  }

  /** One more root, already in the queue or appended to it. */
  lemma Extends(binaries: map<Uuid, Binary>, roots: set<Uuid>, q: seq<Uuid>, u: Uuid)
    requires IsClosure(binaries, roots, q) && Distinct(q)
    ensures u in q ==> IsClosure(binaries, roots + {u}, q)
    ensures u !in q ==> Satisfied(binaries, q + [u], |q|) && Distinct(q + [u]) && Needed(binaries, roots + {u}, q + [u])
  {
  }

  lemma Closes(binaries: map<Uuid, Binary>, roots: set<Uuid>, q: seq<Uuid>, u: Uuid, q': seq<Uuid>)
    requires IsClosure(binaries, roots, q) && q + [u] <= q'
    requires Satisfied(binaries, q', |q'|) && Needed(binaries, roots + {u}, q')
    ensures IsClosure(binaries, roots + {u}, q')
  {
    forall v | v in roots + {u} ensures v in q' {
      assert v in q + [u];
    }
  }

  function Asked(flagsOk: bool, uuid: Uuid): set<Uuid> {
    if flagsOk && uuid != ZERO then {uuid} else {}
  }

  // ----- Whole lives of a loaded program

  datatype Open = Open(flagsOk: bool, uuid: Uuid)

  function AllAsked(main: Uuid, opens: seq<Open>): set<Uuid> {
    if opens == [] then {main}
    else AllAsked(main, opens[..|opens| - 1]) + Asked(opens[|opens| - 1].flagsOk, opens[|opens| - 1].uuid)
  }

  lemma {:induction false} AskedGrows(main: Uuid, opens: seq<Open>, n: nat)
    requires n <= |opens|
    ensures AllAsked(main, opens[..n]) <= AllAsked(main, opens)
    decreases |opens|
  {
    if n < |opens| {
      AskedGrows(main, opens[..|opens| - 1], n);
      assert opens[..|opens| - 1][..n] == opens[..n];
    } else {
      assert opens[..n] == opens;
    }
  }

  /** The roots lead to a binary that is missing or of the wrong width. */
  ghost predicate LeadsToUnloadable(binaries: map<Uuid, Binary>, roots: set<Uuid>, main: Uuid, u: Uuid) {
    && (forall s: set<Uuid> :: roots <= s && Closed(binaries, s) ==> u in s)
    && !(main in binaries && u in binaries && binaries[u].is32 == binaries[main].is32)
  }

  ghost predicate ClosureLoads(binaries: map<Uuid, Binary>, roots: set<Uuid>, main: Uuid) {
    !exists u :: LeadsToUnloadable(binaries, roots, main, u)
  }

  lemma FailedLoad(binaries: map<Uuid, Binary>, main: Uuid, opens: seq<Open>, n: nat, q: seq<Uuid>, u: Uuid)
    requires n <= |opens| && Needed(binaries, AllAsked(main, opens[..n]), q) && u in q
    requires !(main in binaries && u in binaries && binaries[u].is32 == binaries[main].is32)
    ensures !ClosureLoads(binaries, AllAsked(main, opens), main)
  {
    AskedGrows(main, opens, n);
    var roots := AllAsked(main, opens);
    assert LeadsToUnloadable(binaries, roots, main, u);
  }

  lemma AllLoadable(binaries: map<Uuid, Binary>, roots: set<Uuid>, main: Uuid, q: seq<Uuid>)
    requires IsClosure(binaries, roots, q) && main in binaries
    requires forall i :: 0 <= i < |q| ==> q[i] in binaries && binaries[q[i]].is32 == binaries[main].is32
    ensures ClosureLoads(binaries, roots, main)
  {
    var s := set u | u in q;
    assert roots <= s && Closed(binaries, s);
  }

  /**
   * A start and any dlopen calls end with main first and exactly the closure of all that was asked for, each
   * once; they are given up exactly when that closure holds a binary that is missing or of the wrong width.
   */
  method Run(binaries: map<Uuid, Binary>, main: Uuid, opens: seq<Open>)
      returns (ok: bool, queue: seq<Uuid>, log: seq<Event>, ghost cuts: seq<nat>)
    ensures ok ==> && queue != [] && queue[0] == main && Distinct(queue)
                   && IsClosure(binaries, AllAsked(main, opens), queue)
    ensures ok ==> IsCut(queue, cuts) && cuts != [] && cuts[|cuts| - 1] == |queue| && log == LogOf(queue, cuts)
    ensures ok ==> BatchesClosed(binaries, queue, cuts)
    ensures ok <==> ClosureLoads(binaries, AllAsked(main, opens), main)
  {
    hide Distinct, IsClosure, LogOf, IsCut, Needed, ClosureLoads, BatchesClosed;
    var ld := new Ldelf(binaries);
    var r := ld.Start(main);
    assert opens[..0] == [] && AllAsked(main, []) == {main};
    if r != Success {
      ghost var u :| u in ld.queue && !ld.Loadable(u);
      FailedLoad(binaries, main, opens, 0, ld.queue, u);
      return false, ld.queue, ld.log, [];
    }
    for i := 0 to |opens|
      invariant ld.binaries == binaries && ld.Complete() && ld.queue[0] == main
      invariant ld.requested == AllAsked(main, opens[..i])
      invariant main in binaries && ld.is32 == binaries[main].is32
    {
      assert opens[..i + 1][..i] == opens[..i];
      r := ld.Dlopen(opens[i].flagsOk, opens[i].uuid);
      if r == Aborted {
        ghost var u :| u in ld.queue && !ld.Loadable(u);
        FailedLoad(binaries, main, opens, i + 1, ld.queue, u);
        return false, ld.queue, ld.log, [];
      }
    }
    assert opens[..|opens|] == opens;
    AllLoadable(binaries, AllAsked(main, opens), main, ld.queue);
    return true, ld.queue, ld.log, ld.cuts;
  }
}
