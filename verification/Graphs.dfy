/** Walks, cycles, levels and distances in finite directed graphs kept as adjacency
    maps. Nothing here mentions services; both schedulers build on it. */
module Graphs {
  import opened Services

  type Graph = map<Name, set<Name>>

  function Succ(g: Graph, v: Name): set<Name> {
    if v in g then g[v] else {}
  }

  /** The graph `g` after `u -> v` is added, with the entry for `u` created on demand. */
  function AddEdge(g: Graph, u: Name, v: Name): (r: Graph)
    ensures r.Keys == g.Keys + {u}
    ensures forall x, y :: y in Succ(r, x) <==> y in Succ(g, x) || (x == u && y == v)
  {
    g[u := Succ(g, u) + {v}]
  }

  /** The graph after all of `u`'s new edges have been added. */
  function AddEdges(g: Graph, u: Name, names: set<Name>): (r: Graph)
    ensures r.Keys == g.Keys + if names != {} then {u} else {}
    ensures Succ(r, u) == Succ(g, u) + names && forall x :: x != u ==> Succ(r, x) == Succ(g, x)
  {
    if names == {} then g else g[u := Succ(g, u) + names]
  }

  lemma AddOneMore(g: Graph, u: Name, names: set<Name>, v: Name)
    ensures AddEdge(AddEdges(g, u, names), u, v) == AddEdges(g, u, names + {v})
  {
    assert Succ(g, u) + names + {v} == Succ(g, u) + (names + {v});
  }

  function RemoveEdge(g: Graph, u: Name, v: Name): (r: Graph)
    ensures r.Keys == g.Keys + {u}
    ensures forall x, y :: y in Succ(r, x) <==> y in Succ(g, x) && !(x == u && y == v)
  {
    g[u := Succ(g, u) - {v}]
  }

  function Vertices(g: Graph): set<Name> {
    g.Keys + set u, v | u in g && v in g[u] :: v
  }

  /** The keys, and whatever an edge leads to. */
  lemma VerticesMeaning(g: Graph, v: Name)
    ensures v in Vertices(g) <==> v in g || exists u :: v in Succ(g, u)
  {
    if u :| v in Succ(g, u) { assert u in g && v in g[u]; }
    if v in Vertices(g) && v !in g {
      var u, w :| u in g && w in g[u] && w == v;
      assert v in Succ(g, u);
    }
  }

  ghost predicate Transposed(g: Graph, h: Graph) {
    forall u, v :: v in Succ(g, u) <==> u in Succ(h, v)
  }

  // ---------------------------------------------------------------- walks

  ghost predicate Walk(g: Graph, p: seq<Name>) {
    |p| > 0 && forall i :: 0 <= i < |p| - 1 ==> p[i + 1] in Succ(g, p[i])
  }

  ghost predicate WalkFrom(g: Graph, u: Name, p: seq<Name>) {
    Walk(g, p) && p[0] == u
  }

  ghost predicate WalkBetween(g: Graph, u: Name, v: Name, p: seq<Name>) {
    Walk(g, p) && p[0] == u && p[|p| - 1] == v
  }

  /** A closed walk has at least one edge and returns to where it started. */
  ghost predicate ClosedWalk(g: Graph, p: seq<Name>) {
    Walk(g, p) && |p| > 1 && p[0] == p[|p| - 1]
  }

  ghost predicate Acyclic(g: Graph) {
    forall p :: !ClosedWalk(g, p)
  }

  /** A nonempty walk leads from `u` to `v`. */
  ghost predicate Reaches(g: Graph, u: Name, v: Name) {
    exists p :: WalkBetween(g, u, v, p) && |p| > 1
  }

  lemma WalkSlice(g: Graph, p: seq<Name>, i: nat, j: nat)
    requires Walk(g, p) && i < j <= |p|
    ensures Walk(g, p[i..j])
  {
    var q := p[i..j];
    forall k | 0 <= k < |q| - 1 ensures q[k + 1] in Succ(g, q[k]) {
      assert q[k] == p[i + k] && q[k + 1] == p[(i + k) + 1];
    }
  }

  lemma WalkAppend(g: Graph, p: seq<Name>, v: Name)
    requires Walk(g, p) && v in Succ(g, p[|p| - 1])
    ensures Walk(g, p + [v])
  {
    var q := p + [v];
    forall k | 0 <= k < |q| - 1 ensures q[k + 1] in Succ(g, q[k]) {
      if k < |p| - 1 { assert q[k] == p[k] && q[k + 1] == p[k + 1]; }
    }
  }

  lemma WalkPrepend(g: Graph, u: Name, p: seq<Name>)
    requires Walk(g, p) && p[0] in Succ(g, u)
    ensures Walk(g, [u] + p)
  {
    var q := [u] + p;
    forall k | 0 <= k < |q| - 1 ensures q[k + 1] in Succ(g, q[k]) {
      if k > 0 { assert q[k] == p[k - 1] && q[k + 1] == p[(k - 1) + 1]; }
    }
  }

  function Reversed(p: seq<Name>): (r: seq<Name>)
    ensures |r| == |p| && forall i :: 0 <= i < |p| ==> r[i] == p[|p| - 1 - i]
  {
    seq(|p|, i requires 0 <= i < |p| => p[|p| - 1 - i])
  }

  lemma WalkReversed(g: Graph, h: Graph, p: seq<Name>)
    requires Transposed(g, h) && Walk(g, p)
    ensures Walk(h, Reversed(p))
  {
    var r := Reversed(p);
    forall k | 0 <= k < |r| - 1 ensures r[k + 1] in Succ(h, r[k]) {
      var i := |p| - 2 - k;
      assert p[i + 1] in Succ(g, p[i]);
      assert r[k] == p[i + 1] && r[k + 1] == p[i];
    }
  }

  lemma ReachesStep(g: Graph, u: Name, v: Name)
    requires v in Succ(g, u)
    ensures Reaches(g, u, v)
  {
    assert WalkBetween(g, u, v, [u, v]);
  }

  lemma ReachesPrepend(g: Graph, u: Name, v: Name, w: Name)
    requires v in Succ(g, u) && Reaches(g, v, w)
    ensures Reaches(g, u, w)
  {
    var p :| WalkBetween(g, v, w, p) && |p| > 1;
    WalkPrepend(g, u, p);
    assert WalkBetween(g, u, w, [u] + p);
  }

  lemma ReachesTransposed(g: Graph, h: Graph, u: Name, v: Name)
    requires Transposed(g, h) && Reaches(g, u, v)
    ensures Reaches(h, v, u)
  {
    var p :| WalkBetween(g, u, v, p) && |p| > 1;
    WalkReversed(g, h, p);
    assert WalkBetween(h, v, u, Reversed(p));
  }

  lemma LeavingNeedsSuccessor(g: Graph, v: Name, p: seq<Name>)
    requires WalkFrom(g, v, p)
    ensures |p| > 1 ==> Succ(g, v) != {}
  {
    if |p| > 1 {
      assert p[1] in Succ(g, p[0]);
    }
  }

  /** A set closed under successors keeps every walk that enters it. */
  lemma WalkStaysInClosed(g: Graph, s: set<Name>, p: seq<Name>, i: nat, j: nat)
    requires Walk(g, p) && i <= j < |p| && p[i] in s
    requires forall v :: v in s ==> Succ(g, v) <= s
    ensures p[j] in s
    decreases j - i
  {
    if i < j {
      assert p[i + 1] in Succ(g, p[i]);
      WalkStaysInClosed(g, s, p, i + 1, j);
    }
  }

  function IndexOf(path: seq<Name>, v: Name): (i: nat)
    requires v in path
    ensures i < |path| && path[i] == v
  {
    if path[0] == v then 0 else 1 + IndexOf(path[1..], v)
  }

  lemma CycleCloses(g: Graph, path: seq<Name>, v: Name)
    requires Walk(g, path) && v in path && v in Succ(g, path[|path| - 1])
    ensures ClosedWalk(g, path[IndexOf(path, v)..] + [v])
  {
    WalkSlice(g, path, IndexOf(path, v), |path|);
    WalkAppend(g, path[IndexOf(path, v)..], v);
  }

  lemma WalkInLarger(g: Graph, g': Graph, p: seq<Name>)
    requires Walk(g, p) && forall u :: Succ(g, u) <= Succ(g', u)
    ensures Walk(g', p)
  {
    forall i | 0 <= i < |p| - 1 ensures p[i + 1] in Succ(g', p[i]) {
      assert p[i + 1] in Succ(g, p[i]);
    }
  }

  /** Removing edges to vertices outside `keep`, which contains all sources of edges,
      breaks no closed walk. */
  lemma ClosedWalkSurvives(g: Graph, g': Graph, keep: set<Name>, p: seq<Name>)
    requires ClosedWalk(g, p) && g.Keys <= keep
    requires forall u, v :: v in Succ(g, u) && v in keep ==> v in Succ(g', u)
    ensures ClosedWalk(g', p)
  {
    forall i | 0 <= i < |p| - 1 ensures p[i + 1] in Succ(g', p[i]) {
      assert p[i + 1] in Succ(g, p[i]);
      if i + 1 < |p| - 1 {
        assert p[(i + 1) + 1] in Succ(g, p[i + 1]);
      } else {
        assert p[1] in Succ(g, p[0]);
      }
    }
  }

  lemma AddEdgeTransposed(g: Graph, h: Graph, u: Name, v: Name)
    requires Transposed(g, h)
    ensures Transposed(AddEdge(g, u, v), AddEdge(h, v, u))
  {
  }

  lemma SubstituteTransposed(g: Graph, h: Graph, u: Name, v: Name, w: Name)
    requires Transposed(g, h)
    ensures Transposed(AddEdge(RemoveEdge(g, u, v), u, w), AddEdge(RemoveEdge(h, v, u), w, u))
  {
  }

  // ---------------------------------------------------------------- finished regions

  /** `s` is closed under successors and no closed walk stays inside it: the shape of
      the vertices a depth-first search has finished with. */
  ghost predicate Finished(g: Graph, s: set<Name>) {
    && (forall v :: v in s ==> Succ(g, v) <= s)
    && (forall p :: ClosedWalk(g, p) ==> p[0] !in s)
  }

  lemma FinishOne(g: Graph, s: set<Name>, v: Name)
    requires Finished(g, s) && v !in s && Succ(g, v) <= s
    ensures Finished(g, s + {v})
  {
    forall p | ClosedWalk(g, p) ensures p[0] !in s + {v} {
      if p[0] == v {
        assert p[1] in Succ(g, p[0]);
        WalkStaysInClosed(g, s, p, 1, |p| - 1);
      }
    }
  }

  lemma FinishedAllAcyclic(g: Graph, s: set<Name>)
    requires Finished(g, s) && g.Keys <= s
    ensures Acyclic(g)
  {
    forall p ensures !ClosedWalk(g, p) {
      ClosedWalkStartsAtKey(g, p);
    }
  }

  lemma ClosedWalkStartsAtKey(g: Graph, p: seq<Name>)
    ensures ClosedWalk(g, p) ==> p[0] in g.Keys
  {
    if ClosedWalk(g, p) {
      assert p[1] in Succ(g, p[0]);
    }
  }

  // ---------------------------------------------------------------- sinks in finite sets

  lemma DistinctFits(p: seq<Name>, s: set<Name>)
    requires forall i :: 0 <= i < |p| ==> p[i] in s
    requires forall i, j :: 0 <= i < j < |p| ==> p[i] != p[j]
    ensures |p| <= |s|
  {
    if |p| > 0 {
      var last := p[|p| - 1];
      DistinctFits(p[..|p| - 1], s - {last});
    }
  }

  predicate HasSuccessorIn(g: Graph, v: Name, s: set<Name>) {
    exists d :: d in Succ(g, v) && d in s
  }

  lemma LongWalkInside(g: Graph, s: set<Name>, u: Name, n: nat) returns (p: seq<Name>)
    requires u in s && forall v {:trigger HasSuccessorIn(g, v, s)} :: v in s ==> HasSuccessorIn(g, v, s)
    ensures WalkFrom(g, u, p) && |p| == n + 1 && forall i :: 0 <= i < |p| ==> p[i] in s
  {
    if n == 0 {
      p := [u];
    } else {
      var q := LongWalkInside(g, s, u, n - 1);
      assert HasSuccessorIn(g, q[|q| - 1], s);
      var v :| v in Succ(g, q[|q| - 1]) && v in s;
      WalkAppend(g, q, v);
      p := q + [v];
    }
  }

  lemma SameEdgesSameCycles(g: Graph, g': Graph)
    requires forall u :: Succ(g, u) == Succ(g', u)
    ensures Acyclic(g) <==> Acyclic(g')
  {
    forall p ensures Walk(g, p) <==> Walk(g', p) {
      if Walk(g, p) { WalkInLarger(g, g', p); }
      if Walk(g', p) { WalkInLarger(g', g, p); }
    }
    forall p ensures ClosedWalk(g, p) <==> ClosedWalk(g', p) {
      assert Walk(g, p) <==> Walk(g', p);
    }
  }

  lemma LoopIsClosed(g: Graph, p: seq<Name>, i: nat, j: nat)
    requires Walk(g, p) && i < j < |p| && p[i] == p[j]
    ensures ClosedWalk(g, p[i..j + 1])
  {
    WalkSlice(g, p, i, j + 1);
  }

  /** A finite set in which every member has a successor contains a closed walk. */
  lemma NoSinkMeansCycle(g: Graph, s: set<Name>)
    requires s != {} && forall v {:trigger HasSuccessorIn(g, v, s)} :: v in s ==> HasSuccessorIn(g, v, s)
    ensures !Acyclic(g)
  {
    var v :| v in s;
    var p := LongWalkInside(g, s, v, |s|);
    if forall i, j :: 0 <= i < j < |p| ==> p[i] != p[j] {
      DistinctFits(p, s);
      assert false;
    } else {
      var i, j :| 0 <= i < j < |p| && p[i] == p[j];
      LoopIsClosed(g, p, i, j);
    }
  }

  // ---------------------------------------------------------------- levels

  /** `level` gives each vertex one more than its highest successor, and 0 to a vertex
      without successors. */
  ghost predicate Levelling(g: Graph, level: map<Name, nat>) {
    && level.Keys == Vertices(g)
    && (forall v, d :: v in level && d in Succ(g, v) ==> d in level && level[d] < level[v])
    && (forall v {:trigger Tight(g, level, v)} :: v in level ==> Tight(g, level, v))
  }

  /** A vertex above level 0 has a successor exactly one level below. */
  ghost predicate Tight(g: Graph, level: map<Name, nat>, v: Name)
    requires v in level
  {
    level[v] > 0 ==> exists d :: d in Succ(g, v) && d in level && level[d] == level[v] - 1
  }

  /** The longest walk that starts at `v` has exactly `n` edges. */
  ghost predicate LongestChain(g: Graph, v: Name, n: nat) {
    && (exists p :: WalkFrom(g, v, p) && |p| == n + 1)
    && (forall p :: WalkFrom(g, v, p) ==> |p| <= n + 1)
  }

  lemma {:induction false} WalkWithinLevel(g: Graph, level: map<Name, nat>, p: seq<Name>)
    requires Levelling(g, level) && Walk(g, p) && p[0] in level
    ensures |p| <= level[p[0]] + 1
    decreases |p|
  {
    if |p| > 1 {
      assert p[1] in Succ(g, p[0]);
      WalkSlice(g, p, 1, |p|);
      WalkWithinLevel(g, level, p[1..]);
    }
  }

  lemma {:induction false} WalkOfLevel(g: Graph, level: map<Name, nat>, v: Name) returns (p: seq<Name>)
    requires Levelling(g, level) && v in level
    ensures WalkFrom(g, v, p) && |p| == level[v] + 1
    decreases level[v]
  {
    if level[v] == 0 {
      p := [v];
    } else {
      assert Tight(g, level, v);
      var d :| d in Succ(g, v) && d in level && level[d] == level[v] - 1;
      var q := WalkOfLevel(g, level, d);
      WalkPrepend(g, v, q);
      p := [v] + q;
    }
  }

  /** A levelling measures longest chains, so there is only one. */
  lemma LevelIsLongestChain(g: Graph, level: map<Name, nat>, v: Name)
    requires Levelling(g, level) && v in level
    ensures forall n: nat :: LongestChain(g, v, n) <==> n == level[v]
  {
    var q := WalkOfLevel(g, level, v);
    forall p | WalkFrom(g, v, p) ensures |p| <= level[v] + 1 {
      WalkWithinLevel(g, level, p);
    }
  }

  lemma LevellingAcyclic(g: Graph, level: map<Name, nat>)
    requires Levelling(g, level)
    ensures Acyclic(g)
  {
    RankedAcyclic(g, level);
  }

  /** A graph whose edges all lower some rank is acyclic. */
  lemma RankedAcyclic(g: Graph, rank: map<Name, nat>)
    requires forall v, d {:trigger d in Succ(g, v)} :: d in Succ(g, v) ==> v in rank && d in rank && rank[d] < rank[v]
    ensures Acyclic(g)
  {
    forall p ensures !ClosedWalk(g, p) {
      if Walk(g, p) && |p| > 1 {
        assert p[1] in Succ(g, p[0]);
        RanksFall(g, rank, p, |p| - 1);
      }
    }
  }

  lemma {:induction false} RanksFall(g: Graph, rank: map<Name, nat>, p: seq<Name>, i: nat)
    requires forall v, d {:trigger d in Succ(g, v)} :: d in Succ(g, v) ==> v in rank && d in rank && rank[d] < rank[v]
    requires Walk(g, p) && p[0] in rank && i < |p|
    ensures p[i] in rank && rank[p[i]] + i <= rank[p[0]]
  {
    if i > 0 {
      RanksFall(g, rank, p, i - 1);
      assert p[(i - 1) + 1] in Succ(g, p[i - 1]);
    }
  }

  // ---------------------------------------------------------------- distances

  /** Some walk with `k` edges leads from a member of `roots` to `v`. */
  ghost predicate RootedWalk(g: Graph, roots: set<Name>, v: Name, k: nat) {
    exists p :: Walk(g, p) && p[0] in roots && p[|p| - 1] == v && |p| == k + 1
  }

  /** The shortest walk from `roots` to `v` has `k` edges. */
  ghost predicate Distance(g: Graph, roots: set<Name>, v: Name, k: nat) {
    RootedWalk(g, roots, v, k) && forall m: nat :: RootedWalk(g, roots, v, m) ==> k <= m
  }

  lemma RootedWalkExtend(g: Graph, roots: set<Name>, v: Name, k: nat, w: Name)
    requires RootedWalk(g, roots, v, k) && w in Succ(g, v)
    ensures RootedWalk(g, roots, w, k + 1)
  {
    var p :| Walk(g, p) && p[0] in roots && p[|p| - 1] == v && |p| == k + 1;
    WalkAppend(g, p, w);
    assert (p + [w])[0] in roots;
  }
}
