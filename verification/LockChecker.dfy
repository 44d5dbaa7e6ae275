/** The lock-order checker: its graph, its depth-first sort and its breadth-first search. */
module LockChecker {
  import opened LockGraph
  import opened LockSearch
  import opened Wrappers

  /** The flag bits of a node. */
  datatype Flags = Flags(temp: bool, perm: bool, bfs: bool)

  const NO_FLAGS := Flags(false, false, false)

  // ----- What the depth-first marks mean

  /** Finished nodes carry both marks, nodes on the recursion stack only the temporary one. */
  ghost predicate Marks(flags: map<Id, Flags>, stack: seq<Id>, order: seq<Id>) {
    && (forall n :: n in order ==> n !in stack)
    && forall n :: n in flags ==>
         (flags[n].perm <==> n in order) && (flags[n].temp <==> n in order || n in stack)
  }

  /** Every edge of a finished node leads to a node finished before it. */
  ghost predicate Sorted(g: Graph, order: seq<Id>) {
    forall i :: 0 <= i < |order| ==> order[i] in g.out && forall b :: b in g.out[order[i]] ==> b in order[..i]
  }

  ghost predicate SameBfs(f: map<Id, Flags>, g: map<Id, Flags>) {
    f.Keys == g.Keys && forall n :: n in f ==> f[n].bfs == g[n].bfs
  }

  lemma SortedWalk(g: Graph, order: seq<Id>, p: seq<Id>, i: nat)
    requires Sorted(g, order) && IsWalk(g, p) && |p| >= 1 && i < |order| && p[0] == order[i]
    ensures |p| >= 2 ==> p[|p| - 1] in order[..i]
    decreases |p|
  {
    if |p| >= 2 {
      assert Edge(g, p[0], p[1]);
      var j :| 0 <= j < i && order[j] == p[1];
      SortedWalk(g, order, p[1..], j);
      assert p[1..][|p| - 2] == p[|p| - 1];
    }
  }

  /** A graph all of whose nodes can be so ordered has no cycle. */
  lemma SortedAcyclic(g: Graph, order: seq<Id>)
    requires Sorted(g, order) && forall n :: n in g.out ==> n in order
    ensures Acyclic(g)
  {
    forall p ensures !IsCycle(g, p) {
      if IsCycle(g, p) {
        assert Edge(g, p[0], p[1]);
        var i :| 0 <= i < |order| && order[i] == p[0] && p[0] !in order[..i] by { FirstIndex(order, p[0]); }
        SortedWalk(g, order, p, i);
        assert false;
      }
    }
  }

  lemma {:induction false} FirstIndex(s: seq<Id>, x: Id)
    requires x in s
    ensures exists i :: 0 <= i < |s| && s[i] == x && x !in s[..i]
    decreases |s|
  {
    var n := |s| - 1;
    if x in s[..n] {
      FirstIndex(s[..n], x);
      var i :| 0 <= i < n && s[..n][i] == x && x !in s[..n][..i];
      assert s[..n][..i] == s[..i];
    } else {
      assert s[n] == x;
    }
  }

  lemma StartVisit(flags: map<Id, Flags>, stack: seq<Id>, order: seq<Id>, n: Id)
    requires Marks(flags, stack, order) && n in flags && !flags[n].temp
    ensures Marks(flags[n := flags[n].(temp := true)], stack + [n], order) && n !in stack && n !in order
  {
  }

  lemma FinishVisit(g: Graph, flags: map<Id, Flags>, stack: seq<Id>, order: seq<Id>, n: Id)
    requires Marks(flags, stack + [n], order) && n in flags && n !in stack
    requires Sorted(g, order) && n in g.out && forall b :: b in g.out[n] ==> b in order
    ensures Marks(flags[n := flags[n].(perm := true)], stack, order + [n]) && Sorted(g, order + [n])
  {
    var order' := order + [n];
    forall i | 0 <= i < |order'| ensures order'[i] in g.out && forall b :: b in g.out[order'[i]] ==> b in order'[..i] {
      assert order'[..i] == order[..i];
    }
  }

  lemma ExtendWalk(g: Graph, stack: seq<Id>, n: Id, to: Id)
    requires IsWalk(g, stack + [n]) && Edge(g, n, to)
    ensures IsWalk(g, stack + [n] + [to])
  {
    var p, q := stack + [n], stack + [n] + [to];
    forall i | 0 <= i < |q| - 1 ensures Edge(g, q[i], q[i + 1]) {
      assert i < |p| - 1 ==> Edge(g, p[i], p[i + 1]);
    }
  }

  /** Meeting a node that is on the stack closes a cycle. */
  lemma BackEdge(g: Graph, flags: map<Id, Flags>, stack: seq<Id>, order: seq<Id>, n: Id) returns (cycle: seq<Id>)
    requires Marks(flags, stack, order) && IsWalk(g, stack + [n])
    requires n in flags && flags[n].temp && !flags[n].perm
    ensures IsCycle(g, cycle)
  {
    var i :| 0 <= i < |stack| && stack[i] == n;
    var p := stack + [n];
    cycle := p[i..];
    forall j | 0 <= j < |cycle| - 1 ensures Edge(g, cycle[j], cycle[j + 1]) {
      assert Edge(g, p[i + j], p[i + j + 1]);
    }
  }

  lemma WalkPrefix(g: Graph, p: seq<Id>, n: Id)
    requires IsWalk(g, p + [n])
    ensures IsWalk(g, p)
  {
    forall i | 0 <= i < |p| - 1 ensures Edge(g, p[i], p[i + 1]) {
      assert Edge(g, (p + [n])[i], (p + [n])[i + 1]);
    }
  }

  lemma EdgeTarget(g: Graph, a: Id, i: nat)
    requires WellFormed(g) && a in g.out && i < |g.out[a]|
    ensures Edge(g, a, g.out[a][i]) && g.out[a][i] in g.out
  {
    assert Edge(g, a, g.out[a][i]);
  }

  class Checker {
    var nodes: seq<Id>
    var out: map<Id, seq<Id>>
    var flags: map<Id, Flags>

    constructor ()
      ensures Valid() && Clear() && G() == Graph([], map[])
    {
      nodes, out, flags := [], map[], map[];
    }

    ghost function G(): Graph
      reads this`nodes, this`out
    {
      Graph(nodes, out)
    }

    ghost predicate Valid()
      reads this
    {
      WellFormed(G()) && flags.Keys == out.Keys
    }

    ghost predicate Clear()
      reads this`flags
    {
      forall n :: n in flags ==> flags[n] == NO_FLAGS
    }

    ghost function Unmarked(): set<Id>
      reads this`flags
    {
      set n | n in flags && !flags[n].temp
    }

    /**
     Depth-first visit.  `stack` is the path of visits under way and `order` the nodes finished so far.
     On failure `cycle` is a cycle of the graph and `stack'` the path of visits that was abandoned.
     */
    method Visit(n: Id, ghost stack: seq<Id>, ghost order: seq<Id>)
        returns (ok: bool, ghost order': seq<Id>, ghost stack': seq<Id>, ghost cycle: seq<Id>)
      requires Valid() && n in out
      requires Marks(flags, stack, order) && Sorted(G(), order) && IsWalk(G(), stack + [n])
      modifies this`flags
      ensures Valid() && forall m :: m in flags && old(flags[m].temp) ==> flags[m].temp
      ensures ok ==> order <= order' && n in order' && Marks(flags, stack, order') && Sorted(G(), order')
      ensures !ok ==> IsCycle(G(), cycle) && stack <= stack' && IsWalk(G(), stack') && Marks(flags, stack', order')
      ensures SameBfs(old(flags), flags)
      decreases Unmarked()
    {
      hide WellFormed, Marks, Sorted, IsWalk, IsCycle;
      order', stack', cycle := order, stack, [];
      if flags[n].perm {
        PermFinished(stack, order, n);
        return true, order', stack', cycle;
      }
      if flags[n].temp {
        cycle := BackEdge(G(), flags, stack, order, n);
        WalkPrefix(G(), stack, n);
        return false, order', stack', cycle;
      }
      ghost var before := Unmarked();
      StartVisit(flags, stack, order, n);
      flags := flags[n := flags[n].(temp := true)];
      assert n in before && n !in Unmarked();
      for i := 0 to |out[n]|
        invariant Valid() && flags[n].temp && Unmarked() <= before - {n}
        invariant forall m :: m in flags && old(flags[m].temp) ==> flags[m].temp
        invariant order <= order' && Marks(flags, stack + [n], order') && Sorted(G(), order')
        invariant forall j :: 0 <= j < i ==> out[n][j] in order'
        invariant SameBfs(old(flags), flags)
      {
        EdgeTarget(G(), n, i);
        ExtendWalk(G(), stack, n, out[n][i]);
        var good;
        good, order', stack', cycle := Visit(out[n][i], stack + [n], order');
        if !good {
          return false, order', stack', cycle;
        }
      }
      FinishVisit(G(), flags, stack, order', n);
      flags := flags[n := flags[n].(perm := true)];
      order' := order' + [n];
      ok := true;
    }

    lemma NoBfsAfter(before: map<Id, Flags>)
      requires SameBfs(before, flags) && forall n :: n in before ==> before[n] == NO_FLAGS
      ensures NoBfs()
    {
    }

    lemma PermFinished(stack: seq<Id>, order: seq<Id>, n: Id)
      requires Marks(flags, stack, order) && n in flags && flags[n].perm
      ensures n in order
    {
    }

    /**
     Topological sort.  From clear marks it succeeds exactly when the graph has no cycle; on success the marks are
     clear again, and on failure the nodes with only the temporary mark are the path of visits under way.
     */
    method Sort() returns (ok: bool, ghost stack: seq<Id>, ghost order: seq<Id>)
      requires Valid() && Clear()
      modifies this`flags
      ensures Valid() && SameBfs(old(flags), flags)
      ensures ok <==> Acyclic(G())
      ensures ok ==> Clear()
      ensures !ok ==> IsWalk(G(), stack) && Marks(flags, stack, order)
    {
      hide WellFormed, Sorted, IsWalk, IsCycle;
      stack, order := [], [];
      SortedNothing(G());
      for i := 0 to |nodes|
        invariant Valid() && SameBfs(old(flags), flags)
        invariant Marks(flags, [], order) && Sorted(G(), order)
        invariant forall j :: 0 <= j < i ==> nodes[j] in order
      {
        NodeKnown(G(), i);
        if flags[nodes[i]] == NO_FLAGS {
          SingleWalk(G(), nodes[i]);
          assert [] + [nodes[i]] == [nodes[i]];
          ghost var cycle;
          ok, order, stack, cycle := Visit(nodes[i], [], order);
          if !ok {
            return;
          }
        }
      }
      AllOrdered(G(), order);
      flags := map n | n in flags :: NO_FLAGS;
      ok := true;
    }

    ghost predicate NoBfs()
      reads this`flags
    {
      forall n :: n in flags ==> !flags[n].bfs
    }

    /** Marks an unseen target and queues it with its path, if two allocations can be had. */
    method Enqueue(start: Id, cur: Item, queue: seq<Item>, to: Id, budget: nat,
                   ghost done: set<Id>, ghost level: map<Id, nat>)
        returns (starved: bool, left: nat, queue': seq<Item>, ghost level': map<Id, nat>)
      requires Valid() && Visited(flags, level) && level.Keys <= out.Keys && to in out && !flags[to].bfs
      requires Edge(G(), cur.node, to) && Search(G(), start, done, level, [cur] + queue)
      modifies this`flags
      ensures Valid() && to !in level && starved == (budget < 2)
      ensures !starved ==> && left == budget - 2 && level' == level[to := |cur.path| + 1]
                           && Visited(flags, level') && Search(G(), start, done, level', [cur] + queue')
    {
      hide WellFormed, Search, IsCycle, Edge;
      Push(G(), start, done, level, [cur] + queue, to);
      flags := flags[to := flags[to].(bfs := true)];
      if budget < 2 {
        return true, 0, queue, level;
      }
      queue' := queue + [Item(to, cur.path + [to])];
      assert [cur] + queue + [Item(to, cur.path + [to])] == [cur] + queue';
      return false, budget - 2, queue', level[to := |cur.path| + 1];
    }

    /** Follows one edge: back to start, to a node seen before, or to one that is queued. */
    method Follow(start: Id, cur: Item, queue: seq<Item>, to: Id, budget: nat,
                  ghost done: set<Id>, ghost level: map<Id, nat>)
        returns (res: Outcome, left: nat, queue': seq<Item>, ghost level': map<Id, nat>)
      requires Valid() && Visited(flags, level) && level.Keys <= out.Keys && to in out
      requires Edge(G(), cur.node, to) && Search(G(), start, done, level, [cur] + queue)
      modifies this`flags
      ensures Valid() && (res == Closed ==> to == start) && (res == Starved ==> budget + 2 * |level| <= 2 * |out|)
      ensures res != Starved ==> && Visited(flags, level') && level'.Keys <= out.Keys && Extends(level, level')
                                 && Search(G(), start, done, level', [cur] + queue')
                                 && left + Cost(level') + (if res == Closed then 1 else 0) == budget + Cost(level)
      ensures res == Going ==> to != start && to in level' && level'[to] <= |cur.path| + 1
    {
      hide WellFormed, Search, IsCycle, Edge;
      left, queue', level' := budget, queue, level;
      if to == start {
        FewerKeys(level, out);
        return if left == 0 then Starved else Closed, if left == 0 then 0 else left - 1, queue, level;
      }
      if !flags[to].bfs {
        var starved;
        starved, left, queue', level' := Enqueue(start, cur, queue, to, left, done, level);
        if starved {
          FewerKeys(level[to := 0], out);
          return Starved, 0, queue, level;
        }
      } else {
        Seen(G(), start, done, level, [cur] + queue, to);
      }
      res := Going;
    }

    /**
     Follows the edges of one node: either one leads back to start, or the unseen targets are queued.  Queueing takes
     two allocations and closing the path one; when they run out the search is given up.
     */
    method Expand(start: Id, cur: Item, queue: seq<Item>, budget: nat, ghost done: set<Id>, ghost level: map<Id, nat>)
        returns (res: Outcome, left: nat, queue': seq<Item>, ghost level': map<Id, nat>)
      requires Valid() && Visited(flags, level) && level.Keys <= out.Keys
      requires cur.node in out && Search(G(), start, done, level, [cur] + queue)
      modifies this`flags
      ensures Valid() && (res == Starved ==> budget + Cost(level) <= 2 * |out|)
      ensures res != Starved ==> && Visited(flags, level') && level'.Keys <= out.Keys
                                 && Search(G(), start, done, level', [cur] + queue')
                                 && left + Cost(level') + (if res == Closed then 1 else 0) == budget + Cost(level)
      ensures res == Closed ==> Edge(G(), cur.node, start)
      ensures res == Going ==> Search(G(), start, done + {cur.node}, level', queue')
    {
      hide WellFormed, Search, IsCycle, Edge, Visited, Cost;
      res, left, queue', level' := Going, budget, queue, level;
      for i := 0 to |out[cur.node]|
        invariant res == Going && Valid() && Visited(flags, level') && level'.Keys <= out.Keys
        invariant Search(G(), start, done, level', [cur] + queue') && left + Cost(level') == budget + Cost(level)
        invariant forall j :: 0 <= j < i ==>
                    var w := out[cur.node][j]; w != start && w in level' && level'[w] <= |cur.path| + 1
      {
        EdgeTarget(G(), cur.node, i);
        CostIs(level');
        ghost var was := level';
        res, left, queue', level' := Follow(start, cur, queue', out[cur.node][i], left, done, was);
        if res != Going {
          return;
        }
        assert Extends(was, level');
      }
      AllFollowed(G(), start, level', cur);
      Pop(G(), start, done, level', [cur] + queue');
      assert ([cur] + queue')[1..] == queue';
    }

    /**
     Breadth-first search for a cycle through `start`.  The result is a shortest such cycle, given as the code
     returns it: the path from `start` on, closed by a zero.  Two allocations for each lock and one more are enough.
     */
    method ShortestCycle(start: Id, budget: nat) returns (cycle: Option<seq<Id>>, starved: bool)
      requires Valid() && start in out && NoBfs()
      modifies this`flags
      ensures Valid() && (starved ==> cycle.None? && budget <= 2 * |out|)
      ensures !starved ==> (cycle.None? <==> forall c :: IsCycle(G(), c) ==> c[0] != start)
      ensures cycle.Some? ==> ShortestClosed(G(), start, cycle.value)
    {
      hide WellFormed, Search, IsCycle, Edge;
      ghost var done: set<Id>, level: map<Id, nat> := {}, map[start := 1];
      flags := flags[start := flags[start].(bfs := true)];
      FewerKeys(level, out);
      if budget < 2 {
        return None, true;
      }
      var left: nat := budget - 2;
      var queue := [Item(start, [start])];
      SearchStarts(G(), start);
      CostIs(level);
      assert Visited(flags, level) && level.Keys <= out.Keys;
      hide Visited, Cost, ShortestClosed;
      while queue != []
        invariant Valid() && Visited(flags, level) && level.Keys <= out.Keys
        invariant Search(G(), start, done, level, queue) && left + Cost(level) == budget
        decreases out.Keys - done
      {
        FirstKnown(G(), start, done, level, queue);
        var cur := queue[0];
        assert [cur] + queue[1..] == queue;
        var res;
        res, left, queue, level := Expand(start, cur, queue[1..], left, done, level);
        if res == Starved {
          return None, true;
        }
        if res == Closed {
          Found(G(), start, done, level, [cur] + queue);
          ClosedByZero(G(), start, cur.path);
          return Some(cur.path + [0]), false;
        }
        done := done + {cur.node};
      }
      NotFound(G(), start, done, level);
      return None, false;
    }

    method FindEdge(from: Id, to: Id) returns (found: bool)
      requires Valid()
      ensures found <==> Edge(G(), from, to)
    {
      for i := 0 to |nodes|
        invariant forall j :: 0 <= j < i && nodes[j] == from ==> to !in out[from]
      {
        NodeKnown(G(), i);
        if nodes[i] == from {
          for j := 0 to |out[from]|
            invariant to !in out[from][..j]
          {
            if out[from][j] == to {
              return true;
            }
          }
          assert out[from][..|out[from]|] == out[from];
        }
      }
      return false;
    }

    /** Looks up and prints every edge of the cycle p, which a zero closes: no lookup fails. */
    method PrintEdges(n: Id, p: seq<Id>, ghost c: seq<Id>) returns (printed: seq<(Id, Id)>)
      requires Valid() && 0 !in out && IsCycle(G(), c) && c[0] == n
      requires |p| == |c| && p[|p| - 1] == 0 && c[..|c| - 1] == p[..|p| - 1]
      ensures |printed| == |c| - 1 && forall i :: 0 <= i < |printed| ==> printed[i] == (c[i], c[i + 1])
    {
      hide WellFormed;
      WalkNodes(G(), c);
      forall j | 0 <= j < |p| - 1 ensures p[j] == c[j] && p[j] != 0 {
        assert c[j] in out;
        assert p[..|p| - 1][j] == c[..|c| - 1][j];
      }
      printed := [];
      var i, to := 0, 0;
      while p[i] != 0
        invariant Valid() && 0 <= i < |p| && (i > 0 ==> to == c[i - 1])
        invariant |printed| == (if i == 0 then 0 else i - 1)
        invariant forall j :: 0 <= j < |printed| ==> printed[j] == (c[j], c[j + 1])
        decreases |p| - i
      {
        var from := to;
        to := p[i];
        if i != 0 {
          assert Edge(G(), c[i - 1], c[i]);
          var found := FindEdge(from, to);
          assert found;
          printed := printed + [(from, to)];
        }
        i := i + 1;
      }
      assert Edge(G(), c[i - 1], c[i]);
      var found := FindEdge(to, p[0]);
      assert found;
      printed := printed + [(to, p[0])];
    }

    /** Finds and prints a shortest cycle through n.  False is a failed assertion. */
    method PrintCycle(n: Id, budget: nat) returns (ok: bool, printed: seq<(Id, Id)>, ghost c: seq<Id>)
      requires Valid() && n in out && NoBfs() && 0 !in out
      requires exists c :: IsCycle(G(), c) && c[0] == n
      modifies this`flags
      ensures Valid() && (!ok ==> budget <= 2 * |out|)
      ensures ok ==> Report(G(), n, c, printed)
    {
      hide WellFormed, IsCycle, Edge;
      var cycle, starved := ShortestCycle(n, budget);
      if starved {
        return false, [], [];
      }
      var p := cycle.value;
      c := p[..|p| - 1] + [n];
      printed := PrintEdges(n, p, c);
      ok := true;
    }

    // ----- Acquire, try-acquire, destroy.  `budget` is how many allocations the heap still grants.

    method AddToGraph(id: Id, budget: nat) returns (ok: bool, left: nat)
      requires Valid()
      modifies this
      ensures Valid() && (old(Clear()) ==> Clear())
      ensures ok ==> G() == WithNode(old(G()), id) && left + 1 >= budget >= left
      ensures !ok ==> G() == old(G()) && budget == 0
    {
      for i := 0 to |nodes|
        invariant forall j :: 0 <= j < i ==> nodes[j] != id
      {
        if nodes[i] == id {
          NodeKnown(G(), i);
          return true, budget;
        }
      }
      WithNodeWellFormed(G(), id);
      if budget == 0 {
        return false, 0;
      }
      nodes, out, flags := nodes + [id], out[id := []], flags[id := NO_FLAGS];
      return true, budget - 1;
    }

    method AddEdge(from: Id, to: Id, budget: nat) returns (ok: bool, left: nat)
      requires Valid() && from in out && to in out
      modifies this`out
      ensures Valid()
      ensures ok ==> G() == WithEdge(old(G()), from, to) && left + 1 >= budget >= left
      ensures !ok ==> G() == old(G()) && budget == 0
    {
      hide WellFormed;
      for i := 0 to |out[from]|
        invariant to !in out[from][..i]
      {
        if out[from][i] == to {
          return true, budget;
        }
      }
      assert out[from][..|out[from]|] == out[from];
      if budget == 0 {
        return false, 0;
      }
      WithEdgeWellFormed(G(), from, to);
      out := out[from := out[from] + [to]];
      return true, budget - 1;
    }

    /** Edges to id from every lock held; `done` says how many were handled before memory ran out. */
    method AddEdges(held: seq<Id>, id: Id, budget: nat) returns (ok: bool, left: nat, ghost done: nat)
      requires Valid() && id in out && forall h :: h in held ==> h in out
      modifies this`out
      ensures Valid() && done <= |held| && G() == WithEdges(old(G()), held[..done], id)
      ensures ok ==> done == |held| && left + |held| >= budget >= left
      ensures !ok ==> budget < |held|
    {
      hide WellFormed;
      left, done := budget, 0;
      for i := 0 to |held|
        invariant Valid() && done == i && out.Keys == old(out.Keys)
        invariant G() == WithEdges(old(G()), held[..i], id) && left + i >= budget >= left
      {
        ok, left := AddEdge(held[i], id, left);
        if !ok {
          return;
        }
        assert held[..i + 1][..i] == held[..i];
        done := i + 1;
      }
      ok := true;
    }

    /** The node and the edges of an acquire. */
    method Record(held: seq<Id>, id: Id, budget: nat) returns (ok: bool, left: nat)
      requires Valid() && Clear() && Known(G(), held)
      modifies this
      ensures Valid() && Clear()
      ensures ok ==> G() == AcquireGraph(old(G()), held, id) && left + |held| + 1 >= budget
      ensures !ok ==> budget <= |held| && PartlyRecorded(old(G()), held, id, G())
    {
      hide WellFormed, WithEdges;
      ghost var g := G();
      WithNodeWellFormed(g, id);
      ok, left := AddToGraph(id, budget);
      if ok {
        ghost var done;
        ok, left, done := AddEdges(held, id, left);
        assert ok ==> held[..done] == held;
        assert G() == AcquireGraph(g, held[..done], id);
      }
    }

    /**
     A blocking acquire by the thread that owns the list.  Refused exactly when the edges it needs close a cycle;
     the report is then a shortest cycle through the requested lock.
     */
    method Acquire(owned: Owned, id: Id, budget: nat)
        returns (res: Status, printed: seq<(Id, Id)>, ghost cycle: seq<Id>)
      requires Valid() && Clear() && Acyclic(G()) && id != 0 && 0 !in out
      requires Known(G(), owned.locks)
      modifies this, owned
      ensures Valid()
      ensures res != ItemNotFound && (budget >= |old(owned.locks)| + 2 ==> res != OutOfMemory)
      ensures res != OutOfMemory ==> G() == AcquireGraph(old(G()), old(owned.locks), id)
      ensures res == Success ==> Acyclic(G()) && Clear() && owned.locks == old(owned.locks) + [id]
      ensures res != Success ==> owned.locks == old(owned.locks)
      ensures res == BadState ==> !Acyclic(G()) && Report(G(), id, cycle, printed)
      ensures res == Panicked ==> !Acyclic(G()) && budget <= |old(owned.locks)| + 1 + 2 * |out|
      ensures res == OutOfMemory ==> PartlyRecorded(old(G()), old(owned.locks), id, G())
    {
      hide WellFormed, IsCycle, Edge, Acyclic, AcquireGraph, PartlyRecorded, Known, Clear;
      printed, cycle := [], [];
      ghost var g, held := G(), owned.locks;
      var ok, left := Record(owned.locks, id, budget);
      if !ok {
        return OutOfMemory, printed, cycle;
      }
      AcquireNodes(g, held, id);
      ghost var marks, stack, order := flags, [], [];
      NowClear();
      ok, stack, order := Sort();
      if !ok {
        CycleAtRequest(g, held, id);
        NoBfsAfter(marks);
        var shown;
        shown, printed, cycle := PrintCycle(id, left);
        return if shown then BadState else Panicked, printed, cycle;
      }
      if left == 0 {
        FullyRecorded(g, held, id);
        return OutOfMemory, printed, cycle;
      }
      owned.locks := owned.locks + [id];
      res := Success;
    }

    /** A non-blocking acquire that is known to have succeeded: no edge is recorded. */
    method TryAcquire(owned: Owned, id: Id, budget: nat) returns (res: Status)
      requires Valid()
      modifies this, owned
      ensures Valid() && (old(Clear()) ==> Clear())
      ensures budget >= 2 ==> res == Success
      ensures res == Success ==> G() == WithNode(old(G()), id) && owned.locks == old(owned.locks) + [id]
      ensures res != Success ==>
                && res == OutOfMemory && owned.locks == old(owned.locks)
                && (G() == old(G()) || G() == WithNode(old(G()), id))
    {
      var ok, left := AddToGraph(id, budget);
      if !ok || left == 0 {
        return OutOfMemory;
      }
      owned.locks := owned.locks + [id];
      return Success;
    }

    /** Destroys a lock: its node and every edge at it. */
    method Destroy(id: Id)
      requires Valid()
      modifies this
      ensures Valid() && (old(Clear()) ==> Clear())
      ensures G() == if id in old(out) then Without(old(G()), id) else old(G())
    {
      hide WellFormed, Without;
      ghost var g := G();
      WithoutWellFormed(g, id);
      var i := 0;
      while i < |nodes| && nodes[i] != id
        invariant i <= |nodes| && id !in nodes[..i]
      {
        i := i + 1;
      }
      NodeListed(g, id);
      if i < |nodes| {
        DistinctNodes(g, id);
        RemoveOne(g, i);
        nodes := nodes[..i] + nodes[i + 1..];
        for j := 0 to |nodes|
          invariant out.Keys == g.out.Keys && flags == old(flags) && nodes == RemoveAll(g.nodes, id)
          invariant forall k :: 0 <= k < |nodes| ==> nodes[k] in g.out
          invariant forall k :: 0 <= k < j ==> out[nodes[k]] == RemoveAll(g.out[nodes[k]], id)
          invariant forall k :: j <= k < |nodes| ==> out[nodes[k]] == g.out[nodes[k]]
        {
          var kept := Purge(out[nodes[j]], id);
          out := out[nodes[j] := kept];
        }
        PurgedIsWithout(g, id, nodes, out);
        out, flags := out - {id}, flags - {id};
      }
    }

    lemma NowClear()
      requires Clear()
      ensures forall n :: n in flags ==> flags[n] == NO_FLAGS
    {
    }
  }

  /** Drops the edges to n: first those at the head of the list, then the later ones. */
  method Purge(edges: seq<Id>, n: Id) returns (r: seq<Id>)
    ensures r == RemoveAll(edges, n)
  {
    var i := 0;
    while i < |edges| && edges[i] == n
      invariant i <= |edges| && RemoveAll(edges, n) == RemoveAll(edges[i..], n)
    {
      i := i + 1;
    }
    r := [];
    while i < |edges|
      invariant i <= |edges| && RemoveAll(edges, n) == r + RemoveAll(edges[i..], n)
    {
      if edges[i] != n {
        r := r + [edges[i]];
      }
      i := i + 1;
    }
  }

  lemma NodeListed(g: Graph, n: Id)
    requires WellFormed(g)
    ensures n in g.nodes <==> n in g.out
  {
  }

  lemma RemoveOne(g: Graph, i: nat)
    requires WellFormed(g) && i < |g.nodes|
    ensures g.nodes[..i] + g.nodes[i + 1..] == RemoveAll(g.nodes, g.nodes[i])
  {
    RemoveDistinct(g.nodes, i);
  }

  lemma {:induction false} RemoveDistinct(s: seq<Id>, i: nat)
    requires i < |s| && forall j, k :: 0 <= j < k < |s| ==> s[j] != s[k]
    ensures s[..i] + s[i + 1..] == RemoveAll(s, s[i])
  {
    if i == 0 {
      RemoveNone(s[1..], s[0]);
    } else {
      RemoveDistinct(s[1..], i - 1);
      assert s[..i] + s[i + 1..] == [s[0]] + (s[1..][..i - 1] + s[1..][i..]);
    }
  }

  lemma {:induction false} RemoveNone(s: seq<Id>, n: Id)
    requires n !in s
    ensures RemoveAll(s, n) == s
  {
    if s != [] {
      RemoveNone(s[1..], n);
    }
  }

  lemma DistinctNodes(g: Graph, n: Id)
    requires WellFormed(g)
    ensures var r := RemoveAll(g.nodes, n);
            (forall x :: x in r ==> x in g.out && x != n) && forall i, j :: 0 <= i < j < |r| ==> r[i] != r[j]
  {
    RemoveAllContents(g.nodes, n);
  }

  lemma PurgedIsWithout(g: Graph, n: Id, nodes: seq<Id>, out: map<Id, seq<Id>>)
    requires WellFormed(g) && n in g.out && out.Keys == g.out.Keys && nodes == RemoveAll(g.nodes, n)
    requires forall k :: 0 <= k < |nodes| ==>
                           && nodes[k] in out && nodes[k] in g.out
                           && out[nodes[k]] == RemoveAll(g.out[nodes[k]], n)
    ensures Graph(nodes, out - {n}) == Without(g, n)
  {
    RemoveAllContents(g.nodes, n);
    forall m | m in g.out && m != n ensures out[m] == RemoveAll(g.out[m], n) {
      assert m in nodes;
      var k :| 0 <= k < |nodes| && nodes[k] == m;
    }
  }

  /** Every lock held is a node of the graph. */
  ghost predicate Known(g: Graph, held: seq<Id>) {
    forall h :: h in held ==> h in g.out
  }

  /** An acquire that ran out of memory has recorded nothing, or the edges from the first few locks held. */
  ghost predicate PartlyRecorded(g: Graph, held: seq<Id>, id: Id, h: Graph)
    requires Known(g, held)
  {
    h == g || exists k :: 0 <= k <= |held| && h == AcquireGraph(g, held[..k], id)
  }

  lemma FullyRecorded(g: Graph, held: seq<Id>, id: Id)
    requires Known(g, held)
    ensures PartlyRecorded(g, held, id, AcquireGraph(g, held, id))
  {
    assert held[..|held|] == held;
  }

  lemma AcquireNodes(g: Graph, held: seq<Id>, id: Id)
    requires Known(g, held)
    ensures AcquireGraph(g, held, id).out.Keys == g.out.Keys + {id}
  {
  }

  /** The sequence without its last occurrence of n. */
  function RemoveLast(s: seq<Id>, n: Id): seq<Id> {
    if s == [] then [] else
    if s[|s| - 1] == n then s[..|s| - 1] else RemoveLast(s[..|s| - 1], n) + [s[|s| - 1]]
  }

  /** after is before with its newest entry for n taken out, and everything else in its place. */
  ghost predicate NewestTaken(before: seq<Id>, n: Id, after: seq<Id>) {
    exists k :: 0 <= k < |before| && before[k] == n && n !in before[k + 1..] && after == before[..k] + before[k + 1..]
  }

  /** The locks one thread owns, in the order it acquired them. */
  class Owned {
    var locks: seq<Id>

    constructor ()
      ensures locks == []
    {
      locks := [];
    }

    method Release(id: Id) returns (res: Status)
      modifies this
      ensures res == if id in old(locks) then Success else ItemNotFound
      ensures id in old(locks) ==> NewestTaken(old(locks), id, locks)
      ensures locks == if id in old(locks) then RemoveLast(old(locks), id) else old(locks)
    {
      var i := |locks|;
      assert locks[i..] == [] && locks[..i] == locks;
      while i > 0
        invariant 0 <= i <= |locks| && locks == old(locks) && id !in locks[i..]
        invariant id in locks[..i] ==> RemoveLast(locks, id) == RemoveLast(locks[..i], id) + locks[i..]
      {
        i := i - 1;
        assert locks[..i + 1][..i] == locks[..i];
        if locks[i] == id {
          locks := locks[..i] + locks[i + 1..];
          return Success;
        }
        assert locks[i..] == [locks[i]] + locks[i + 1..];
      }
      return ItemNotFound;
    }
  }

  datatype Status = Success | OutOfMemory | BadState | ItemNotFound | Panicked

  /** The graph after the node and the edges of an acquire. */
  function AcquireGraph(g: Graph, held: seq<Id>, id: Id): Graph
    requires forall h :: h in held ==> h in g.out
  {
    WithEdges(WithNode(g, id), held, id)
  }

  /** What is printed: the edges of a shortest cycle through the requested lock, in order. */
  ghost predicate Report(g: Graph, id: Id, c: seq<Id>, printed: seq<(Id, Id)>) {
    && IsCycle(g, c) && c[0] == id
    && (forall d :: IsCycle(g, d) && d[0] == id ==> |c| <= |d|)
    && |printed| == |c| - 1 && forall i :: 0 <= i < |printed| ==> printed[i] == (c[i], c[i + 1])
  }

  lemma WalkNodes(g: Graph, c: seq<Id>)
    requires IsWalk(g, c)
    ensures forall i :: 0 <= i < |c| - 1 ==> c[i] in g.out
  {
    forall i | 0 <= i < |c| - 1 ensures c[i] in g.out {
      assert Edge(g, c[i], c[i + 1]);
    }
  }

  /** If an acquire makes the graph cyclic, some cycle passes through the requested lock. */
  lemma CycleAtRequest(g: Graph, held: seq<Id>, id: Id)
    requires WellFormed(g) && Acyclic(g) && Known(g, held)
    requires !Acyclic(AcquireGraph(g, held, id))
    ensures exists c :: IsCycle(AcquireGraph(g, held, id), c) && c[0] == id
  {
    var h := AcquireGraph(g, held, id);
    WithNodeWellFormed(g, id);
    WithEdgesEdges(WithNode(g, id), held, id);
    var p :| IsCycle(h, p);
    var q := NewCycleThrough(g, h, id, p);
  }

  lemma WithEdgeWellFormed(g: Graph, a: Id, b: Id)
    requires WellFormed(g) && a in g.out && b in g.out
    ensures WellFormed(WithEdge(g, a, b))
  {
    WithEdgeEdges(g, a, b);
  }

  ghost predicate Visited(flags: map<Id, Flags>, level: map<Id, nat>) {
    forall n :: n in flags ==> (flags[n].bfs <==> n in level)
  }

  /** A shortest cycle through start, its last node replaced by the terminating zero. */
  ghost predicate ShortestClosed(g: Graph, start: Id, p: seq<Id>) {
    && |p| >= 2 && p[0] == start && p[|p| - 1] == 0
    && IsCycle(g, p[..|p| - 1] + [start])
    && forall c :: IsCycle(g, c) && c[0] == start ==> |p| <= |c|
  }

  /** How following an edge or a node's edges ends: all followed, back at the start, or out of memory. */
  datatype Outcome = Going | Closed | Starved

  /** The allocations behind the nodes reached so far. */
  ghost function Cost(level: map<Id, nat>): nat {
    2 * |level|
  }

  lemma CostIs(level: map<Id, nat>)
    ensures Cost(level) == 2 * |level|
  {
  }

  ghost predicate Extends(a: map<Id, nat>, b: map<Id, nat>) {
    forall n :: n in a ==> n in b && b[n] == a[n]
  }

  lemma FewerKeys(a: map<Id, nat>, b: map<Id, seq<Id>>)
    requires a.Keys <= b.Keys
    ensures |a| <= |b|
  {
    assert b.Keys == a.Keys + (b.Keys - a.Keys);
  }

  lemma ClosedByZero(g: Graph, start: Id, path: seq<Id>)
    requires IsCycle(g, path + [start]) && |path| >= 1 && path[0] == start
    requires forall c :: IsCycle(g, c) && c[0] == start ==> |path| + 1 <= |c|
    ensures ShortestClosed(g, start, path + [0])
    ensures !forall c :: IsCycle(g, c) ==> c[0] != start
  {
    assert (path + [0])[..|path|] == path;
    assert (path + [start])[0] == start;
  }

  lemma FirstKnown(g: Graph, start: Id, done: set<Id>, level: map<Id, nat>, items: seq<Item>)
    requires Search(g, start, done, level, items) && items != []
    ensures items[0].node in level && items[0].node !in done && |items[0].path| >= 1 && items[0].path[0] == start
  {
  }

  lemma AllFollowed(g: Graph, start: Id, level: map<Id, nat>, cur: Item)
    requires cur.node in g.out
    requires forall j :: 0 <= j < |g.out[cur.node]| ==>
               var w := g.out[cur.node][j]; w != start && w in level && level[w] <= |cur.path| + 1
    ensures forall w :: Edge(g, cur.node, w) ==> w != start && w in level && level[w] <= |cur.path| + 1
  {
  }

  lemma SortedNothing(g: Graph)
    ensures Sorted(g, [])
  {
  }

  lemma SingleWalk(g: Graph, n: Id)
    ensures IsWalk(g, [n])
  {
  }

  lemma NodeKnown(g: Graph, i: nat)
    requires WellFormed(g) && i < |g.nodes|
    ensures g.nodes[i] in g.out
  {
  }

  lemma AllOrdered(g: Graph, order: seq<Id>)
    requires WellFormed(g) && Sorted(g, order) && forall j :: 0 <= j < |g.nodes| ==> g.nodes[j] in order
    ensures Acyclic(g)
  {
    SortedAcyclic(g, order);
  }
}
