/** The lock-order graph as a value: walks, cycles, and the updates the checker makes. */
module LockGraph {
  type Id = nat

  /** Nodes in list order, and for each node its list of edge targets. */
  datatype Graph = Graph(nodes: seq<Id>, out: map<Id, seq<Id>>)

  ghost predicate WellFormed(g: Graph) {
    && (forall i, j :: 0 <= i < j < |g.nodes| ==> g.nodes[i] != g.nodes[j])
    && (forall n :: n in g.nodes <==> n in g.out)
    && (forall a, b :: Edge(g, a, b) ==> b in g.out)
  }

  predicate Edge(g: Graph, a: Id, b: Id) {
    a in g.out && b in g.out[a]
  }

  ghost predicate IsWalk(g: Graph, p: seq<Id>) {
    forall i :: 0 <= i < |p| - 1 ==> Edge(g, p[i], p[i + 1])
  }

  /** A closed walk; a self-loop is the shortest one. */
  ghost predicate IsCycle(g: Graph, p: seq<Id>) {
    |p| >= 2 && p[0] == p[|p| - 1] && IsWalk(g, p)
  }

  ghost predicate Acyclic(g: Graph) {
    forall p :: !IsCycle(g, p)
  }

  // ----- Updates

  /** Find the node or add it at the end. */
  function WithNode(g: Graph, n: Id): Graph {
    if n in g.out then g else Graph(g.nodes + [n], g.out[n := []])
  }

  /** Find the edge or add it at the end. */
  function WithEdge(g: Graph, a: Id, b: Id): Graph
    requires a in g.out
  {
    if b in g.out[a] then g else g.(out := g.out[a := g.out[a] + [b]])
  }

  /** An edge to n from every lock already held, in order. */
  function WithEdges(g: Graph, held: seq<Id>, n: Id): Graph
    requires forall h :: h in held ==> h in g.out
    ensures WithEdges(g, held, n).out.Keys == g.out.Keys && WithEdges(g, held, n).nodes == g.nodes
  {
    if held == [] then g else WithEdge(WithEdges(g, held[..|held| - 1], n), held[|held| - 1], n)
  }

  function RemoveAll(s: seq<Id>, n: Id): seq<Id> {
    if s == [] then [] else (if s[0] == n then [] else [s[0]]) + RemoveAll(s[1..], n)
  }

  /** The node and every edge to or from it gone. */
  function Without(g: Graph, n: Id): Graph {
    Graph(RemoveAll(g.nodes, n), map m | m in g.out && m != n :: RemoveAll(g.out[m], n))
  }

  // ----- What the updates do to nodes and edges

  lemma WithEdgeEdges(g: Graph, h: Id, n: Id)
    requires h in g.out
    ensures forall a, b :: Edge(WithEdge(g, h, n), a, b) <==> Edge(g, a, b) || (a == h && b == n)
  {
    forall a, b ensures Edge(WithEdge(g, h, n), a, b) <==> Edge(g, a, b) || (a == h && b == n) {
    }
  }

  lemma {:induction false} WithEdgesEdges(g: Graph, held: seq<Id>, n: Id)
    requires forall h :: h in held ==> h in g.out
    ensures forall a, b :: Edge(WithEdges(g, held, n), a, b) <==> Edge(g, a, b) || (a in held && b == n)
  {
    if held != [] {
      var init, h := held[..|held| - 1], held[|held| - 1];
      WithEdgesEdges(g, init, n);
      WithEdgeEdges(WithEdges(g, init, n), h, n);
      assert forall a :: a in held <==> a in init || a == h;
    }
  }

  lemma {:induction false} RemoveAllContents(s: seq<Id>, n: Id)
    ensures forall x :: x in RemoveAll(s, n) <==> x in s && x != n
    ensures (forall i, j :: 0 <= i < j < |s| ==> s[i] != s[j]) ==>
            forall i, j :: 0 <= i < j < |RemoveAll(s, n)| ==> RemoveAll(s, n)[i] != RemoveAll(s, n)[j]
  {
    if s != [] {
      RemoveAllContents(s[1..], n);
      var rest := RemoveAll(s[1..], n);
      assert s == [s[0]] + s[1..];
      if forall i, j :: 0 <= i < j < |s| ==> s[i] != s[j] {
        assert forall i :: 0 <= i < |rest| ==> rest[i] in s[1..];
        assert s[0] !in s[1..];
      }
    }
  }

  lemma WithNodeWellFormed(g: Graph, n: Id)
    requires WellFormed(g)
    ensures WellFormed(WithNode(g, n)) && n in WithNode(g, n).out
    ensures forall a, b :: Edge(WithNode(g, n), a, b) <==> Edge(g, a, b)
  {
    var h := WithNode(g, n);
    forall a, b ensures Edge(h, a, b) <==> Edge(g, a, b) {
    }
  }

  lemma WithEdgesWellFormed(g: Graph, held: seq<Id>, n: Id)
    requires WellFormed(g) && n in g.out && forall h :: h in held ==> h in g.out
    ensures WellFormed(WithEdges(g, held, n))
  {
    WithEdgesEdges(g, held, n);
  }

  lemma WithoutWellFormed(g: Graph, n: Id)
    requires WellFormed(g)
    ensures WellFormed(Without(g, n))
    ensures forall a, b :: Edge(Without(g, n), a, b) <==> Edge(g, a, b) && a != n && b != n
  {
    RemoveAllContents(g.nodes, n);
    forall m | m in g.out
      ensures forall x :: x in RemoveAll(g.out[m], n) <==> x in g.out[m] && x != n
    {
      RemoveAllContents(g.out[m], n);
    }
    var h := Without(g, n);
    forall a, b ensures Edge(h, a, b) <==> Edge(g, a, b) && a != n && b != n {
    }
  }

  // ----- Cycles

  /** Fewer edges, no new cycles. */
  lemma SubgraphAcyclic(g: Graph, h: Graph)
    requires Acyclic(g) && forall a, b :: Edge(h, a, b) ==> Edge(g, a, b)
    ensures Acyclic(h)
  {
    forall p ensures !IsCycle(h, p) {
      assert !IsCycle(g, p);
    }
  }

  /** A cycle can be started at any of its nodes. */
  lemma Rotate(g: Graph, p: seq<Id>, i: nat) returns (q: seq<Id>)
    requires IsCycle(g, p) && i < |p|
    ensures IsCycle(g, q) && q[0] == p[i] && |q| == |p|
  {
    q := p[i..] + p[1..i + 1];
    forall j | 0 <= j < |q| - 1 ensures Edge(g, q[j], q[j + 1]) {
      if j < |p| - 1 - i {
        assert q[j] == p[i + j] && q[j + 1] == p[i + j + 1];
      } else {
        var m := j - (|p| - 1 - i);
        assert q[j + 1] == p[m + 1];
        assert q[j] == p[m];
      }
    }
  }

  /** A cycle that new edges into n brought about passes through n. */
  lemma NewCycleThrough(g: Graph, h: Graph, n: Id, p: seq<Id>) returns (q: seq<Id>)
    requires Acyclic(g) && IsCycle(h, p)
    requires forall a, b :: Edge(h, a, b) ==> Edge(g, a, b) || b == n
    ensures IsCycle(h, q) && q[0] == n && |q| == |p|
  {
    if n !in p {
      AvoidsNew(g, h, n, p);
      assert false;
    }
    var i :| 0 <= i < |p| && p[i] == n;
    q := Rotate(h, p, i);
  }

  lemma AvoidsNew(g: Graph, h: Graph, n: Id, p: seq<Id>)
    requires IsCycle(h, p) && n !in p
    requires forall a, b :: Edge(h, a, b) ==> Edge(g, a, b) || b == n
    ensures IsCycle(g, p)
  {
  }
}
