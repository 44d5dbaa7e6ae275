/** The breadth-first search for the shortest cycle through a node, on values. */
module LockSearch {
  import opened LockGraph

  /** A queued node and the path that reached it. */
  datatype Item = Item(node: Id, path: seq<Id>)

  /** A path from start to the item's node. */
  ghost predicate Reaches(g: Graph, start: Id, item: Item) {
    && |item.path| >= 1 && item.path[0] == start && item.path[|item.path| - 1] == item.node
    && IsWalk(g, item.path)
  }

  ghost predicate Queued(items: seq<Item>, v: Id) {
    exists i :: 0 <= i < |items| && items[i].node == v
  }

  ghost predicate ItemsOk(g: Graph, start: Id, done: set<Id>, level: map<Id, nat>, items: seq<Item>) {
    forall i :: 0 <= i < |items| ==>
      items[i].node in level && items[i].node !in done
      && |items[i].path| == level[items[i].node] && Reaches(g, start, items[i])
  }

  /** Distinct nodes, by increasing level, over at most two levels. */
  ghost predicate Layered(items: seq<Item>) {
    && (forall i, j :: 0 <= i < j < |items| ==>
          |items[i].path| <= |items[j].path| && items[i].node != items[j].node)
    && forall i :: 0 <= i < |items| ==> |items[i].path| <= |items[0].path| + 1
  }

  ghost predicate Covered(done: set<Id>, level: map<Id, nat>, items: seq<Item>) {
    && (forall v :: v in level ==> v in done || Queued(items, v))
    && (forall v :: v in done ==> v in level && (items != [] ==> level[v] <= |items[0].path|))
  }

  ghost predicate Followed(g: Graph, start: Id, done: set<Id>, level: map<Id, nat>) {
    forall v, w :: v in done && v in level && Edge(g, v, w) ==> w != start && w in level && level[w] <= level[v] + 1
  }

  /**
   The state of the search: `level` gives every visited node the length of its path, `done` are the nodes whose
   edges have been followed, and `items` the node being processed followed by the queue.
   */
  ghost predicate Search(g: Graph, start: Id, done: set<Id>, level: map<Id, nat>, items: seq<Item>) {
    && start in level && level[start] == 1
    && ItemsOk(g, start, done, level, items) && Layered(items)
    && Covered(done, level, items) && Followed(g, start, done, level)
  }

  lemma SearchStarts(g: Graph, start: Id)
    ensures Search(g, start, {}, map[start := 1], [Item(start, [start])])
  {
    assert [Item(start, [start])][0].node == start;
  }

  lemma PushReaches(g: Graph, start: Id, item: Item, w: Id)
    requires Reaches(g, start, item) && Edge(g, item.node, w)
    ensures Reaches(g, start, Item(w, item.path + [w]))
  {
    var p := item.path + [w];
    forall i | 0 <= i < |p| - 1 ensures Edge(g, p[i], p[i + 1]) {
      assert i < |p| - 2 ==> Edge(g, item.path[i], item.path[i + 1]);
    }
  }

  /** A node not seen before joins the queue one level further out. */
  lemma Push(g: Graph, start: Id, done: set<Id>, level: map<Id, nat>, items: seq<Item>, w: Id)
    requires Search(g, start, done, level, items) && items != [] && w !in level && Edge(g, items[0].node, w)
    ensures Search(g, start, done, level[w := |items[0].path| + 1], items + [Item(w, items[0].path + [w])])
  {
    var level', item := level[w := |items[0].path| + 1], Item(w, items[0].path + [w]);
    var items' := items + [item];
    PushReaches(g, start, items[0], w);
    assert ItemsOk(g, start, done, level', items') by { hide Reaches; }
    forall v | v in level' ensures v in done || Queued(items', v) {
      if v == w {
        assert items'[|items|].node == w;
      } else if v !in done {
        var i :| 0 <= i < |items| && items[i].node == v;
        assert items'[i].node == v;
      }
    }
  }

  /** A node seen before is at most one level further out. */
  lemma Seen(g: Graph, start: Id, done: set<Id>, level: map<Id, nat>, items: seq<Item>, w: Id)
    requires Search(g, start, done, level, items) && items != [] && w in level
    ensures level[w] <= |items[0].path| + 1
  {
    if w !in done {
      var i :| 0 <= i < |items| && items[i].node == w;
    }
  }

  /** Once all its edges have been followed, the first node is done. */
  lemma Pop(g: Graph, start: Id, done: set<Id>, level: map<Id, nat>, items: seq<Item>)
    requires Search(g, start, done, level, items) && items != []
    requires forall w :: Edge(g, items[0].node, w) ==> w != start && w in level && level[w] <= |items[0].path| + 1
    ensures Search(g, start, done + {items[0].node}, level, items[1..])
  {
    hide Reaches, Edge;
    var n, rest := items[0].node, items[1..];
    var done' := done + {n};
    assert forall i :: 0 <= i < |rest| ==> rest[i] == items[i + 1];
    assert Layered(rest);
    assert ItemsOk(g, start, done', level, rest);
    forall v | v in level ensures v in done' || Queued(rest, v) {
      if v !in done' {
        var i :| 0 <= i < |items| && items[i].node == v;
        assert rest[i - 1].node == v;
      }
    }
  }

  /** Along any walk from start, the first node that is not done is close to start. */
  lemma {:induction false} WalkLevel(g: Graph, start: Id, done: set<Id>, level: map<Id, nat>, items: seq<Item>,
                                     c: seq<Id>, i: nat)
    requires Search(g, start, done, level, items) && IsWalk(g, c) && i < |c| && c[0] == start
    requires forall j :: 0 <= j < i ==> c[j] in done
    ensures c[i] in level && level[c[i]] <= i + 1
  {
    if i > 0 {
      WalkLevel(g, start, done, level, items, c, i - 1);
      assert Edge(g, c[i - 1], c[i]);
    }
  }

  lemma StaysOpen(g: Graph, start: Id, done: set<Id>, level: map<Id, nat>, items: seq<Item>, c: seq<Id>)
    requires Search(g, start, done, level, items) && IsWalk(g, c) && |c| >= 2
    requires forall j :: 0 <= j < |c| - 1 ==> c[j] in done
    ensures c[|c| - 1] != start
  {
    assert Edge(g, c[|c| - 2], c[|c| - 2 + 1]);
  }

  /** No cycle through start can keep to nodes that are done. */
  lemma LeavesDone(g: Graph, start: Id, done: set<Id>, level: map<Id, nat>, items: seq<Item>, c: seq<Id>)
      returns (i: nat)
    requires Search(g, start, done, level, items) && IsCycle(g, c) && c[0] == start
    ensures i < |c| - 1 && c[i] !in done && c[i] in level && level[c[i]] <= i + 1
  {
    i := 0;
    while i < |c| - 1 && c[i] in done
      invariant i <= |c| - 1 && forall j :: 0 <= j < i ==> c[j] in done
    {
      i := i + 1;
    }
    if i == |c| - 1 {
      StaysOpen(g, start, done, level, items, c);
      assert false;
    }
    WalkLevel(g, start, done, level, items, c, i);
  }

  /** The edge back to start closes a shortest cycle. */
  lemma Found(g: Graph, start: Id, done: set<Id>, level: map<Id, nat>, items: seq<Item>)
    requires Search(g, start, done, level, items) && items != [] && Edge(g, items[0].node, start)
    ensures IsCycle(g, items[0].path + [start])
    ensures forall c :: IsCycle(g, c) && c[0] == start ==> |items[0].path| + 1 <= |c|
  {
    var p := items[0].path + [start];
    forall i | 0 <= i < |p| - 1 ensures Edge(g, p[i], p[i + 1]) {
      assert i < |p| - 2 ==> Edge(g, items[0].path[i], items[0].path[i + 1]);
    }
    forall c | IsCycle(g, c) && c[0] == start ensures |items[0].path| + 1 <= |c| {
      var i := LeavesDone(g, start, done, level, items, c);
      var j :| 0 <= j < |items| && items[j].node == c[i];
      assert j > 0 ==> |items[0].path| <= |items[j].path|;
    }
  }

  /** An empty queue means there is no cycle through start. */
  lemma NotFound(g: Graph, start: Id, done: set<Id>, level: map<Id, nat>)
    requires Search(g, start, done, level, [])
    ensures forall c :: IsCycle(g, c) ==> c[0] != start
  {
    forall c | IsCycle(g, c) ensures c[0] != start {
      if c[0] == start {
        var i := LeavesDone(g, start, done, level, [], c);
        assert false;
      }
    }
  }
}
