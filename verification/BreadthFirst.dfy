/** Breadth-first search with several roots and a queue that may hold a vertex more than
    once, as the resolver's depth calculation runs it. */
module BreadthFirst {
  import opened Services
  import opened Graphs

  type Queue = seq<(Name, nat)>

  /** Some walk leads from `roots` to `v`. */
  ghost predicate Rooted(g: Graph, roots: set<Name>, v: Name) {
    exists k: nat :: RootedWalk(g, roots, v, k)
  }

  ghost predicate Queued(queue: Queue, v: Name, bound: nat) {
    exists i :: 0 <= i < |queue| && queue[i].0 == v && queue[i].1 <= bound
  }

  /** Queued depths are those of real walks, and no two differ by more than one, the
      front being lowest. */
  ghost predicate GoodQueue(g: Graph, roots: set<Name>, queue: Queue) {
    && (forall i {:trigger RootedWalk(g, roots, queue[i].0, queue[i].1)} ::
          0 <= i < |queue| ==> RootedWalk(g, roots, queue[i].0, queue[i].1))
    && (forall i, j :: 0 <= i < j < |queue| ==> queue[i].1 <= queue[j].1 <= queue[i].1 + 1)
  }

  /** Visited vertices have their distance; what they and the roots lead to is visited
      or waits in the queue. */
  ghost predicate Searched(g: Graph, roots: set<Name>, dist: map<Name, nat>, queue: Queue) {
    && (forall v {:trigger Distance(g, roots, v, dist[v])} :: v in dist ==> Distance(g, roots, v, dist[v]))
    && (forall v, w :: v in dist && w in Succ(g, v) && w !in dist ==> Queued(queue, w, dist[v] + 1))
    && (forall r {:trigger Queued(queue, r, 0)} :: r in roots && r !in dist ==> Queued(queue, r, 0))
  }

  /** A walk to an unvisited vertex is at least as long as some queued depth. */
  lemma {:induction false} QueueBeatsWalk(g: Graph, roots: set<Name>, dist: map<Name, nat>, queue: Queue,
                                          p: seq<Name>, i: nat)
    requires Searched(g, roots, dist, queue) && Walk(g, p) && p[0] in roots && i < |p| && p[i] !in dist
    ensures exists j :: 0 <= j < |queue| && queue[j].1 <= i
    decreases i
  {
    if i == 0 {
      assert Queued(queue, p[0], 0);
    } else if p[i - 1] !in dist {
      QueueBeatsWalk(g, roots, dist, queue, p, i - 1);
    } else {
      WalkSlice(g, p, 0, i);
      assert Distance(g, roots, p[i - 1], dist[p[i - 1]]);
      assert RootedWalk(g, roots, p[i - 1], i - 1) by { assert p[0..i][i - 1] == p[i - 1]; }
      assert p[(i - 1) + 1] in Succ(g, p[i - 1]);
      assert Queued(queue, p[i], dist[p[i - 1]] + 1);
    }
  }

  /** The front of the queue, if unvisited, carries its distance. */
  lemma FrontIsNearest(g: Graph, roots: set<Name>, dist: map<Name, nat>, queue: Queue)
    requires GoodQueue(g, roots, queue) && Searched(g, roots, dist, queue) && queue != [] && queue[0].0 !in dist
    ensures Distance(g, roots, queue[0].0, queue[0].1)
  {
    forall m: nat | RootedWalk(g, roots, queue[0].0, m) ensures queue[0].1 <= m {
      var p :| Walk(g, p) && p[0] in roots && p[|p| - 1] == queue[0].0 && |p| == m + 1;
      QueueBeatsWalk(g, roots, dist, queue, p, m);
    }
  }

  lemma SkipVisited(g: Graph, roots: set<Name>, dist: map<Name, nat>, queue: Queue)
    requires GoodQueue(g, roots, queue) && Searched(g, roots, dist, queue) && queue != [] && queue[0].0 in dist
    ensures GoodQueue(g, roots, queue[1..]) && Searched(g, roots, dist, queue[1..])
  {
    forall v, bound: nat | Queued(queue, v, bound) && v !in dist ensures Queued(queue[1..], v, bound) {
      var i :| 0 <= i < |queue| && queue[i].0 == v && queue[i].1 <= bound;
      assert queue[1..][i - 1] == queue[i];
    }
  }

  /** `more` queues, one step deeper, the unvisited successors of the vertex `v`. */
  ghost predicate Extends(g: Graph, dist: map<Name, nat>, v: Name, depth: nat, more: Queue) {
    && (forall i :: 0 <= i < |more| ==> more[i].0 in Succ(g, v) && more[i].1 == depth + 1)
    && (forall w :: w in Succ(g, v) && w !in dist ==> Queued(more, w, depth + 1))
  }

  lemma QueueAfterVisit(g: Graph, roots: set<Name>, dist: map<Name, nat>, queue: Queue, more: Queue)
    requires GoodQueue(g, roots, queue) && queue != []
    requires Extends(g, dist, queue[0].0, queue[0].1, more)
    ensures GoodQueue(g, roots, queue[1..] + more)
  {
    var (n, d) := queue[0];
    var queue' := queue[1..] + more;
    forall i | 0 <= i < |queue'| ensures RootedWalk(g, roots, queue'[i].0, queue'[i].1) && d <= queue'[i].1 <= d + 1 {
      if i < |queue| - 1 {
        assert queue'[i] == queue[i + 1];
      } else {
        assert queue'[i] == more[i - (|queue| - 1)];
        RootedWalkExtend(g, roots, n, d, queue'[i].0);
      }
    }
    forall i, j | 0 <= i < j < |queue'| ensures queue'[i].1 <= queue'[j].1 {
      if j < |queue| - 1 {
        assert queue'[i] == queue[i + 1] && queue'[j] == queue[j + 1];
      } else {
        assert queue'[j] == more[j - (|queue| - 1)];
      }
    }
  }

  lemma VisitFront(g: Graph, roots: set<Name>, dist: map<Name, nat>, queue: Queue, more: Queue)
    requires GoodQueue(g, roots, queue) && Searched(g, roots, dist, queue) && queue != [] && queue[0].0 !in dist
    requires Extends(g, dist[queue[0].0 := queue[0].1], queue[0].0, queue[0].1, more)
    ensures Searched(g, roots, dist[queue[0].0 := queue[0].1], queue[1..] + more)
  {
    var (n, d) := queue[0];
    var dist', queue' := dist[n := d], queue[1..] + more;
    FrontIsNearest(g, roots, dist, queue);
    forall v, bound: nat | Queued(queue, v, bound) && v != n ensures Queued(queue', v, bound) {
      var i :| 0 <= i < |queue| && queue[i].0 == v && queue[i].1 <= bound;
      assert queue'[i - 1] == queue[i];
    }
    forall w | w in Succ(g, n) && w !in dist' ensures Queued(queue', w, d + 1) {
      var i :| 0 <= i < |more| && more[i].0 == w && more[i].1 <= d + 1;
      assert queue'[|queue| - 1 + i] == more[i];
    }
  }

  lemma StartQueue(g: Graph, roots: set<Name>, starts: seq<Name>, queue: Queue)
    requires forall v :: v in starts <==> v in roots
    requires |queue| == |starts| && forall i :: 0 <= i < |queue| ==> queue[i] == (starts[i], 0)
    ensures GoodQueue(g, roots, queue) && Searched(g, roots, map[], queue)
  {
    forall i | 0 <= i < |queue| ensures RootedWalk(g, roots, queue[i].0, queue[i].1) {
      assert Walk(g, [starts[i]]);
    }
    forall r | r in roots ensures Queued(queue, r, 0) {
      var i :| 0 <= i < |starts| && starts[i] == r;
      assert queue[i].0 == r;
    }
  }

  lemma QueuedGrows(queue: Queue, item: (Name, nat))
    ensures forall v, bound: nat :: Queued(queue, v, bound) ==> Queued(queue + [item], v, bound)
    ensures Queued(queue + [item], item.0, item.1)
  {
    var queue' := queue + [item];
    assert queue'[|queue|] == item;
    forall v, bound: nat | Queued(queue, v, bound) ensures Queued(queue', v, bound) {
      var i :| 0 <= i < |queue| && queue[i].0 == v && queue[i].1 <= bound;
      assert queue'[i] == queue[i];
    }
  }

  lemma AllVisited(g: Graph, roots: set<Name>, dist: map<Name, nat>, v: Name)
    requires Searched(g, roots, dist, [])
    ensures Rooted(g, roots, v) <==> v in dist
  {
    if v in dist {
      assert Distance(g, roots, v, dist[v]);
    } else if Rooted(g, roots, v) {
      var k: nat :| RootedWalk(g, roots, v, k);
      var p :| Walk(g, p) && p[0] in roots && p[|p| - 1] == v && |p| == k + 1;
      QueueBeatsWalk(g, roots, dist, [], p, k);
    }
  }

  /** The invariant of the search: a good queue, and everything accounted for. */
  ghost predicate Searching(g: Graph, roots: set<Name>, dist: map<Name, nat>, queue: Queue) {
    && GoodQueue(g, roots, queue) && Searched(g, roots, dist, queue)
    && forall i :: 0 <= i < |queue| ==> queue[i].0 in roots + Vertices(g)
  }

  /** The depths the search assigns: exactly the vertices some root leads to, each with
      its distance from the nearest root. */
  method Depths(g: Graph, roots: set<Name>, starts: seq<Name>) returns (depth: map<Name, nat>)
    requires forall v :: v in starts <==> v in roots
    ensures forall v :: v in depth <==> Rooted(g, roots, v)
    ensures forall v :: v in depth ==> Distance(g, roots, v, depth[v])
  {
    var queue: Queue := seq(|starts|, i requires 0 <= i < |starts| => (starts[i], 0));
    StartQueue(g, roots, starts, queue);
    depth := map[];
    ghost var unseen := roots + Vertices(g);
    while queue != []
      invariant Searching(g, roots, depth, queue)
      invariant forall v :: v in roots + Vertices(g) && v !in depth ==> v in unseen
      decreases unseen, |queue|
    {
      var (v, d) := queue[0];
      if v in depth {
        SkipVisited(g, roots, depth, queue);
        queue := queue[1..];
      } else {
        var more := Successors(g, v, d, depth.Keys + {v});
        QueueAfterVisit(g, roots, depth[v := d], queue, more);
        VisitFront(g, roots, depth, queue, more);
        depth, unseen := depth[v := d], unseen - {v};
        queue := queue[1..] + more;
      }
    }
    forall v ensures v in depth <==> Rooted(g, roots, v) { AllVisited(g, roots, depth, v); }
    forall v | v in depth ensures Distance(g, roots, v, depth[v]) { }
  }

  method Successors(g: Graph, node: Name, depth: nat, visited: set<Name>) returns (more: Queue)
    ensures forall i :: 0 <= i < |more| ==> more[i].0 in Succ(g, node) && more[i].1 == depth + 1
    ensures forall w :: w in Succ(g, node) && w !in visited ==> Queued(more, w, depth + 1)
  {
    more := [];
    var todo := Succ(g, node);
    while todo != {}
      invariant todo <= Succ(g, node)
      invariant forall j :: 0 <= j < |more| ==> more[j].0 in Succ(g, node) && more[j].1 == depth + 1
      invariant forall w :: w in Succ(g, node) && w !in todo && w !in visited ==> Queued(more, w, depth + 1)
      decreases todo
    {
      var dependent :| dependent in todo;
      todo := todo - {dependent};
      if dependent !in visited {
        QueuedGrows(more, (dependent, depth + 1));
        more := more + [(dependent, depth + 1)];
      }
    }
  }
}
