/** Whole runs of the checker: every interleaving of the threads' calls in which all calls succeed. */
module LockRuns {
  import opened LockGraph
  import opened LockChecker

  type Thread = nat

  /** A lock in a thread's list, and whether it was acquired by a blocking call. */
  datatype Entry = Entry(id: Id, blocking: bool)

  datatype System = System(g: Graph, owned: map<Thread, seq<Entry>>)

  function Held(s: System, t: Thread): seq<Entry> {
    if t in s.owned then s.owned[t] else []
  }

  function Ids(entries: seq<Entry>): (r: seq<Id>)
    ensures |r| == |entries| && forall i :: 0 <= i < |r| ==> r[i] == entries[i].id
  {
    seq(|entries|, i requires 0 <= i < |entries| => entries[i].id)
  }

  function DropLast(entries: seq<Entry>, id: Id): seq<Entry> {
    if entries == [] then [] else
    if entries[|entries| - 1].id == id then entries[..|entries| - 1]
    else DropLast(entries[..|entries| - 1], id) + [entries[|entries| - 1]]
  }

  datatype Op =
    | Acquire(t: Thread, id: Id)
    | TryAcquire(t: Thread, id: Id)
    | Release(t: Thread, id: Id)
    | Destroy(id: Id)

  /** One successful call.  A lock is destroyed only while no thread owns it. */
  ghost predicate Step(s: System, op: Op, s': System) {
    match op
    case Acquire(t, id) =>
      && Known(s.g, Ids(Held(s, t)))
      && s'.g == AcquireGraph(s.g, Ids(Held(s, t)), id) && Acyclic(s'.g)
      && s'.owned == s.owned[t := Held(s, t) + [Entry(id, true)]]
    case TryAcquire(t, id) =>
      s'.g == WithNode(s.g, id) && s'.owned == s.owned[t := Held(s, t) + [Entry(id, false)]]
    case Release(t, id) =>
      id in Ids(Held(s, t)) && s'.g == s.g && s'.owned == s.owned[t := DropLast(Held(s, t), id)]
    case Destroy(id) =>
      && (forall t :: id !in Ids(Held(s, t)))
      && s'.g == (if id in s.g.out then Without(s.g, id) else s.g) && s'.owned == s.owned
  }

  /** What a call needs to succeed: no new cycle, a lock to release, nobody owning what is destroyed. */
  ghost predicate Permitted(s: System, op: Op) {
    match op
    case Acquire(t, id) => Known(s.g, Ids(Held(s, t))) && Acyclic(AcquireGraph(s.g, Ids(Held(s, t)), id))
    case TryAcquire(_, _) => true
    case Release(t, id) => id in Ids(Held(s, t))
    case Destroy(id) => forall t :: id !in Ids(Held(s, t))
  }

  /** Allocations that are always enough for a call. */
  function Need(s: System, op: Op): nat {
    match op
    case Acquire(t, _) => |Held(s, t)| + 2
    case TryAcquire(_, _) => 2
    case _ => 0
  }

  /** A call can succeed exactly when it is permitted. */
  lemma PermittedSteps(s: System, op: Op)
    ensures Permitted(s, op) <==> exists s' :: Step(s, op, s')
  {
    hide Acyclic, AcquireGraph, WithNode, Without;
    if Permitted(s, op) {
      var s' := match op
        case Acquire(t, id) =>
          System(AcquireGraph(s.g, Ids(Held(s, t)), id), s.owned[t := Held(s, t) + [Entry(id, true)]])
        case TryAcquire(t, id) => System(WithNode(s.g, id), s.owned[t := Held(s, t) + [Entry(id, false)]])
        case Release(t, id) => System(s.g, s.owned[t := DropLast(Held(s, t), id)])
        case Destroy(id) => System(if id in s.g.out then Without(s.g, id) else s.g, s.owned);
      assert Step(s, op, s');
    }
  }

  /** A blocking entry has an edge from every entry before it. */
  ghost predicate Chained(g: Graph, entries: seq<Entry>) {
    && (forall i :: 0 <= i < |entries| ==> entries[i].id in g.out)
    && forall i, j :: 0 <= i < j < |entries| && entries[j].blocking ==> Edge(g, entries[i].id, entries[j].id)
  }

  ghost predicate Inv(s: System) {
    WellFormed(s.g) && Acyclic(s.g) && forall t :: Chained(s.g, Held(s, t))
  }

  // ----- Every step keeps the invariant

  lemma ChainedMono(g: Graph, h: Graph, entries: seq<Entry>)
    requires Chained(g, entries)
    requires forall n :: n in g.out ==> n in h.out
    requires forall a, b :: Edge(g, a, b) ==> Edge(h, a, b)
    ensures Chained(h, entries)
  {
  }

  lemma {:induction false} DropLastShape(entries: seq<Entry>, id: Id) returns (k: nat)
    requires id in Ids(entries)
    ensures k < |entries| && entries[k].id == id && DropLast(entries, id) == entries[..k] + entries[k + 1..]
    ensures forall j :: k < j < |entries| ==> entries[j].id != id
    decreases |entries|
  {
    var n := |entries| - 1;
    if entries[n].id == id {
      k := n;
    } else {
      assert id in Ids(entries[..n]) by {
        var i :| 0 <= i < |entries| && Ids(entries)[i] == id;
        assert Ids(entries[..n])[i] == id;
      }
      k := DropLastShape(entries[..n], id);
      assert entries[..n][..k] + entries[..n][k + 1..] + [entries[n]] == entries[..k] + entries[k + 1..];
    }
  }

  /** after is before with its newest entry for id taken out; every other entry stays, with its flag. */
  ghost predicate NewestDropped(before: seq<Entry>, id: Id, after: seq<Entry>) {
    exists k :: 0 <= k < |before| && before[k].id == id && after == before[..k] + before[k + 1..]
                && forall j :: k < j < |before| ==> before[j].id != id
  }

  /** A release takes the newest entry for the lock out of the thread's list, and touches nothing else. */
  lemma ReleaseTakes(s: System, t: Thread, id: Id, s': System)
    requires Step(s, Release(t, id), s')
    ensures s'.g == s.g && NewestDropped(Held(s, t), id, Held(s', t))
    ensures forall u :: u != t ==> Held(s', u) == Held(s, u)
  {
    hide DropLast;
    var k := DropLastShape(Held(s, t), id);
  }

  lemma DropLastChained(g: Graph, entries: seq<Entry>, id: Id)
    requires Chained(g, entries) && id in Ids(entries)
    ensures Chained(g, DropLast(entries, id))
  {
    var k := DropLastShape(entries, id);
    var r := entries[..k] + entries[k + 1..];
    forall i, j | 0 <= i < j < |r| && r[j].blocking ensures Edge(g, r[i].id, r[j].id) {
      var i', j' := if i < k then i else i + 1, if j < k then j else j + 1;
      assert r[i] == entries[i'] && r[j] == entries[j'];
    }
  }

  lemma AcquireKeeps(s: System, t: Thread, id: Id, s': System)
    requires Inv(s) && Step(s, Acquire(t, id), s')
    ensures Inv(s')
  {
    hide WithEdges;
    var held := Held(s, t);
    WithNodeWellFormed(s.g, id);
    WithEdgesWellFormed(WithNode(s.g, id), Ids(held), id);
    WithEdgesEdges(WithNode(s.g, id), Ids(held), id);
    AcquireNodes(s.g, Ids(held), id);
    hide AcquireGraph, WithNode, Edge;
    forall u ensures Chained(s'.g, Held(s', u)) {
      ChainedMono(s.g, s'.g, Held(s, u));
      if u == t {
        var entries := held + [Entry(id, true)];
        forall i, j | 0 <= i < j < |entries| && entries[j].blocking ensures Edge(s'.g, entries[i].id, entries[j].id) {
          assert entries[i].id == Ids(held)[i];
        }
      }
    }
  }

  lemma TryAcquireKeeps(s: System, t: Thread, id: Id, s': System)
    requires Inv(s) && Step(s, TryAcquire(t, id), s')
    ensures Inv(s')
  {
    WithNodeWellFormed(s.g, id);
    SubgraphAcyclic(s.g, s'.g);
    forall u ensures Chained(s'.g, Held(s', u)) {
      ChainedMono(s.g, s'.g, Held(s, u));
    }
  }

  lemma DestroyKeeps(s: System, id: Id, s': System)
    requires Inv(s) && Step(s, Destroy(id), s')
    ensures Inv(s')
  {
    hide Without;
    WithoutWellFormed(s.g, id);
    WithoutNodes(s.g, id);
    SubgraphAcyclic(s.g, s'.g);
    forall u ensures Chained(s'.g, Held(s', u)) {
      var entries := Held(s, u);
      assert forall i :: 0 <= i < |entries| ==> entries[i].id == Ids(entries)[i];
    }
  }

  lemma WithoutNodes(g: Graph, id: Id)
    ensures forall n :: n in Without(g, id).out <==> n in g.out && n != id
  {
  }

  lemma StepKeeps(s: System, op: Op, s': System)
    requires Inv(s) && Step(s, op, s')
    ensures Inv(s')
  {
    match op
    case Acquire(t, id) => AcquireKeeps(s, t, id, s');
    case TryAcquire(t, id) => TryAcquireKeeps(s, t, id, s');
    case Release(t, id) =>
      DropLastChained(s.g, Held(s, t), id);
      forall u ensures Chained(s'.g, Held(s', u)) {
        assert u != t ==> Held(s', u) == Held(s, u);
      }
    case Destroy(id) => DestroyKeeps(s, id, s');
  }

  // ----- No circular wait

  /** Thread t waits for the lock at the end of its list, put there by a blocking acquire. */
  predicate Waits(s: System, t: Thread, id: Id) {
    var h := Held(s, t);
    h != [] && h[|h| - 1] == Entry(id, true)
  }

  /** Thread t holds the lock at a place before the end of its list. */
  predicate Holds(s: System, t: Thread, id: Id) {
    var h := Held(s, t);
    exists i :: 0 <= i < |h| - 1 && h[i].id == id
  }

  /** Threads ts[0], ts[1], ... each wait for a lock that the next one holds, and the last for one the first holds. */
  ghost predicate CircularWait(s: System, ts: seq<Thread>, ids: seq<Id>) {
    && |ts| == |ids| >= 1
    && forall i :: 0 <= i < |ts| ==> Waits(s, ts[i], ids[i]) && Holds(s, ts[if i + 1 == |ts| then 0 else i + 1], ids[i])
  }

  lemma NoCircularWait(s: System, ts: seq<Thread>, ids: seq<Id>)
    requires Inv(s)
    ensures !CircularWait(s, ts, ids)
  {
    if CircularWait(s, ts, ids) {
      var c := ids + [ids[0]];
      forall i | 0 <= i < |c| - 1 ensures Edge(s.g, c[i], c[i + 1]) {
        var next := if i + 1 == |ts| then 0 else i + 1;
        assert Waits(s, ts[next], ids[next]);
        var h := Held(s, ts[next]);
        assert Holds(s, ts[next], ids[i]);
        var j :| 0 <= j < |h| - 1 && h[j].id == ids[i];
        assert Chained(s.g, h);
      }
      assert IsCycle(s.g, c);
      assert false;
    }
  }

  /** The run: states joined by successful calls, starting with an empty graph and no lock owned. */
  ghost predicate Run(states: seq<System>, ops: seq<Op>) {
    && |states| == |ops| + 1 && states[0] == System(Graph([], map[]), map[])
    && forall i :: 0 <= i < |ops| ==> Step(states[i], ops[i], states[i + 1])
  }

  lemma {:induction false} RunKeeps(states: seq<System>, ops: seq<Op>, i: nat)
    requires Run(states, ops) && i <= |ops|
    ensures Inv(states[i])
  {
    if i == 0 {
      forall p ensures !IsCycle(states[0].g, p) {
        assert |p| >= 2 ==> !Edge(states[0].g, p[0], p[0 + 1]);
      }
    } else {
      RunKeeps(states, ops, i - 1);
      StepKeeps(states[i - 1], ops[i - 1], states[i]);
    }
  }

  /** In every run, in every state: the graph is acyclic and no set of threads waits in a circle. */
  lemma RunSafe(states: seq<System>, ops: seq<Op>)
    requires Run(states, ops)
    ensures forall i :: 0 <= i <= |ops| ==> Acyclic(states[i].g) && forall t :: Chained(states[i].g, Held(states[i], t))
    ensures forall i, ts, ids :: 0 <= i <= |ops| ==> !CircularWait(states[i], ts, ids)
  {
    forall i | 0 <= i <= |ops| ensures Inv(states[i]) {
      RunKeeps(states, ops, i);
    }
    forall i, ts, ids | 0 <= i <= |ops| ensures !CircularWait(states[i], ts, ids) {
      NoCircularWait(states[i], ts, ids);
    }
  }

  // ----- The checker itself runs these steps

  /** The objects hold state s: the graph, and one list for each of the threads. */
  ghost predicate Represents(checker: Checker, owned: seq<Owned>, s: System)
    reads checker, set t | 0 <= t < |owned| :: owned[t]
  {
    && checker.Valid() && checker.Clear() && checker.G() == s.g && 0 !in checker.out
    && (forall i, j :: 0 <= i < j < |owned| ==> owned[i] != owned[j])
    && (forall t :: 0 <= t < |owned| ==> owned[t].locks == Ids(Held(s, t)))
    && forall t :: t >= |owned| ==> Held(s, t) == []
  }

  predicate InRange(op: Op, n: nat) {
    match op
    case Destroy(id) => id != 0
    case _ => op.id != 0 && op.t < n
  }

  lemma {:induction false} DropLastIds(entries: seq<Entry>, id: Id)
    ensures Ids(DropLast(entries, id)) == RemoveLast(Ids(entries), id)
  {
    if entries != [] {
      var n := |entries| - 1;
      DropLastIds(entries[..n], id);
      assert Ids(entries)[..n] == Ids(entries[..n]);
    }
  }

  lemma IdsAppend(entries: seq<Entry>, e: Entry)
    ensures Ids(entries + [e]) == Ids(entries) + [e.id]
  {
  }

  method AcquireStep(checker: Checker, owned: seq<Owned>, t: Thread, id: Id, budget: nat, ghost s: System)
      returns (ok: bool, ghost s': System)
    requires Represents(checker, owned, s) && Inv(s) && t < |owned| && id != 0
    modifies checker, owned[t]
    ensures ok ==> Step(s, Acquire(t, id), s') && Represents(checker, owned, s')
    ensures budget >= Need(s, Acquire(t, id)) ==> (ok <==> Permitted(s, Acquire(t, id)))
  {
    hide WellFormed, Acyclic, AcquireGraph;
    s' := s;
    KnownHeld(s, t);
    AcquireNodes(s.g, Ids(Held(s, t)), id);
    IdsAppend(Held(s, t), Entry(id, true));
    ghost var cycle;
    var res, printed;
    res, printed, cycle := checker.Acquire(owned[t], id, budget);
    ok := res == Success;
    s' := System(checker.G(), s.owned[t := Held(s, t) + [Entry(id, true)]]);
    if ok {
      HeldUpdate(s, s', t, Held(s, t) + [Entry(id, true)]);
      assert checker.out == s'.g.out;
    }
  }

  lemma HeldUpdate(s: System, s': System, t: Thread, h: seq<Entry>)
    requires s'.owned == s.owned[t := h]
    ensures forall u :: Held(s', u) == if u == t then h else Held(s, u)
  {
  }

  lemma KnownHeld(s: System, t: Thread)
    requires Inv(s)
    ensures Known(s.g, Ids(Held(s, t)))
  {
    assert Chained(s.g, Held(s, t));
  }

  method TryAcquireStep(checker: Checker, owned: seq<Owned>, t: Thread, id: Id, budget: nat, ghost s: System)
      returns (ok: bool, ghost s': System)
    requires Represents(checker, owned, s) && t < |owned| && id != 0
    modifies checker, owned[t]
    ensures ok ==> Step(s, TryAcquire(t, id), s') && Represents(checker, owned, s')
    ensures budget >= Need(s, TryAcquire(t, id)) ==> (ok <==> Permitted(s, TryAcquire(t, id)))
  {
    hide WellFormed;
    var res := checker.TryAcquire(owned[t], id, budget);
    ok := res == Success;
    IdsAppend(Held(s, t), Entry(id, false));
    s' := System(checker.G(), s.owned[t := Held(s, t) + [Entry(id, false)]]);
    HeldUpdate(s, s', t, Held(s, t) + [Entry(id, false)]);
    assert checker.out == s'.g.out;
  }

  method ReleaseStep(checker: Checker, owned: seq<Owned>, t: Thread, id: Id, ghost s: System)
      returns (ok: bool, ghost s': System)
    requires Represents(checker, owned, s) && t < |owned|
    modifies owned[t]
    ensures ok ==> Step(s, Release(t, id), s') && Represents(checker, owned, s')
    ensures ok ==> NewestDropped(Held(s, t), id, Held(s', t))
    ensures ok <==> Permitted(s, Release(t, id))
  {
    hide WellFormed, DropLast, NewestDropped, NewestTaken;
    var res := owned[t].Release(id);
    ok := res == Success;
    DropLastIds(Held(s, t), id);
    s' := System(checker.G(), s.owned[t := DropLast(Held(s, t), id)]);
    HeldUpdate(s, s', t, DropLast(Held(s, t), id));
    if ok {
      ReleaseTakes(s, t, id, s');
    }
  }

  method DestroyStep(checker: Checker, owned: seq<Owned>, id: Id, ghost s: System)
      returns (ok: bool, ghost s': System)
    requires Represents(checker, owned, s)
    modifies checker
    ensures ok ==> Step(s, Destroy(id), s') && Represents(checker, owned, s')
    ensures ok <==> Permitted(s, Destroy(id))
  {
    hide WellFormed, Without;
    s' := s;
    ok := forall t :: 0 <= t < |owned| ==> id !in owned[t].locks;
    if ok {
      forall t: Thread ensures id !in Ids(Held(s, t)) {
        assert t < |owned| ==> owned[t].locks == Ids(Held(s, t));
      }
      WithoutNodes(s.g, id);
      checker.Destroy(id);
      s' := System(checker.G(), s.owned);
      assert checker.out == s'.g.out;
      assert forall t :: Held(s', t) == Held(s, t);
    } else {
      ghost var t :| 0 <= t < |owned| && id in owned[t].locks;
      assert owned[t].locks == Ids(Held(s, t));
    }
  }

  /** Runs any sequence of calls on the real objects until one is refused. */
  method Execute(threads: nat, ops: seq<Op>, budget: nat)
      returns (done: nat, checker: Checker, owned: seq<Owned>, ghost states: seq<System>)
    requires forall i :: 0 <= i < |ops| ==> InRange(ops[i], threads)
    ensures done <= |ops| && Run(states, ops[..done])
    ensures done == |ops| ==> Represents(checker, owned, states[done])
    ensures done < |ops| ==> budget < Need(states[done], ops[done]) || !exists s' :: Step(states[done], ops[done], s')
  {
    hide WellFormed, Acyclic, Represents, Step, Permitted, Need;
    checker := new Checker();
    owned := MakeLists(threads);
    done := 0;
    ghost var s := System(Graph([], map[]), map[]);
    states := [s];
    StartsOut(checker, owned);
    while done < |ops|
      invariant done <= |ops| && |owned| == threads && fresh(checker)
      invariant forall t :: 0 <= t < threads ==> fresh(owned[t])
      invariant Run(states, ops[..done]) && s == states[done] && Represents(checker, owned, s)
    {
      RunKeeps(states, ops[..done], done);
      var ok;
      ghost var s';
      match ops[done] {
        case Acquire(t, id) => ok, s' := AcquireStep(checker, owned, t, id, budget, s);
        case TryAcquire(t, id) => ok, s' := TryAcquireStep(checker, owned, t, id, budget, s);
        case Release(t, id) => ok, s' := ReleaseStep(checker, owned, t, id, s);
        case Destroy(id) => ok, s' := DestroyStep(checker, owned, id, s);
      }
      if !ok {
        PermittedSteps(s, ops[done]);
        return;
      }
      RunExtends(states, ops[..done], ops[done], s');
      assert ops[..done] + [ops[done]] == ops[..done + 1];
      states, s, done := states + [s'], s', done + 1;
    }
  }

  method MakeLists(n: nat) returns (owned: seq<Owned>)
    ensures |owned| == n && forall t :: 0 <= t < n ==> fresh(owned[t]) && owned[t].locks == []
    ensures forall i, j :: 0 <= i < j < n ==> owned[i] != owned[j]
  {
    owned := [];
    for i := 0 to n
      invariant |owned| == i && forall t :: 0 <= t < i ==> fresh(owned[t]) && owned[t].locks == []
      invariant forall i, j :: 0 <= i < j < |owned| ==> owned[i] != owned[j]
    {
      var list := new Owned();
      owned := owned + [list];
    }
  }

  lemma StartsOut(checker: Checker, owned: seq<Owned>)
    requires checker.Valid() && checker.Clear() && checker.G() == Graph([], map[])
    requires forall t :: 0 <= t < |owned| ==> owned[t].locks == []
    requires forall i, j :: 0 <= i < j < |owned| ==> owned[i] != owned[j]
    ensures Represents(checker, owned, System(Graph([], map[]), map[]))
    ensures Run([System(Graph([], map[]), map[])], [])
  {
    assert checker.out == checker.G().out;
  }

  lemma RunExtends(states: seq<System>, ops: seq<Op>, op: Op, s': System)
    requires Run(states, ops) && Step(states[|ops|], op, s')
    ensures Run(states + [s'], ops + [op])
  {
  }
}
