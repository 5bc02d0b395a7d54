/** The dependency resolver: registration, fallback substitution, cycle detection,
    staging, depths and impact queries, with the fields the original updates in place.
    The in-place reassignment of stages follows the order in which the nodes were first
    registered, as the original's dict does. Every other iteration over a dict or a set
    takes its elements in an arbitrary order: there the order does not matter. */
module Resolver {
  import opened Services
  import opened Names
  import opened Graphs
  import opened Chains
  import Sorter
  import BreadthFirst

  datatype DependencyNode = DependencyNode(dependencies: seq<ServiceDependency>, stage: Option<nat>, depth: nat)

  type Nodes = map<Name, DependencyNode>
  type Stages = map<nat, seq<Name>>

  datatype Resolution =
    | Resolved(stages: Stages)
    | MissingRequired(service: Name, names: seq<Name>)
    | EdgeAlreadyGone(service: Name, dep: Name)
    | Circular(paths: seq<seq<Name>>)
    | UnexpectedCycle

  // ---------------------------------------------------------------- how graph and nodes relate

  /** Every Required dependency of a registered service is an edge: true until a
      fallback is substituted. */
  ghost predicate Strict(nodes: Nodes, graph: Graph) {
    forall s, n :: s in nodes && n in RequiredNames(nodes[s].dependencies) ==> n in Succ(graph, s)
  }

  /** Every Required dependency on a registered service is an edge. */
  ghost predicate Covers(nodes: Nodes, graph: Graph) {
    forall s, n :: s in nodes && n in RequiredNames(nodes[s].dependencies) && n in nodes ==> n in Succ(graph, s)
  }

  /** The edges are exactly the current Required dependencies: no stale edge, no fallback. */
  ghost predicate Exact(nodes: Nodes, graph: Graph) {
    forall s, n :: s in nodes ==> (n in RequiredNames(nodes[s].dependencies) <==> n in Succ(graph, s))
  }

  /** Whoever else needs `name` still has an edge to it. */
  ghost predicate NoLostEdge(nodes: Nodes, graph: Graph, name: Name) {
    forall s :: s in nodes && s != name && name in RequiredNames(nodes[s].dependencies) ==> name in Succ(graph, s)
  }

  ghost predicate AllRegistered(nodes: Nodes) {
    forall s, n :: s in nodes && n in RequiredNames(nodes[s].dependencies) ==> n in nodes
  }

  // ---------------------------------------------------------------- validation of one service

  datatype Check = Clear(edges: set<Name>) | Missing(names: seq<Name>) | EdgeGone(dep: Name)

  function MissingNames(deps: seq<ServiceDependency>, registered: set<Name>): seq<Name> {
    if deps == [] then []
    else (if deps[0].kind.Required? && deps[0].name !in registered then [deps[0].name] else [])
         + MissingNames(deps[1..], registered)
  }

  /** What validation does to the edges of one service, from its `i`-th dependency on. */
  function CheckFrom(deps: seq<ServiceDependency>, i: nat, edges: set<Name>, registered: set<Name>): Check
    requires i <= |deps|
    decreases |deps| - i
  {
    if i == |deps| then Clear(edges)
    else
      var d := deps[i];
      if d.kind.Required? && d.name !in registered then
        if !UsableFallback(d, registered) then Missing(MissingNames(deps, registered))
        else if d.name !in edges then EdgeGone(d.name)
        else CheckFrom(deps, i + 1, edges - {d.name} + {d.fallback.value}, registered)
      else CheckFrom(deps, i + 1, edges, registered)
  }

  predicate NeedsFallback(d: ServiceDependency, registered: set<Name>) {
    d.kind.Required? && d.name !in registered
  }

  /** The dependency names a fallback, and one that is registered. */
  predicate Replaceable(d: ServiceDependency, registered: set<Name>) {
    d.fallback != None && |d.fallback.value| > 0 && d.fallback.value in registered
  }

  /** The caller-checkable condition under which validation accepts a service. */
  predicate Substitutable(deps: seq<ServiceDependency>, i: nat, registered: set<Name>) {
    && (forall j :: i <= j < |deps| && NeedsFallback(deps[j], registered) ==> Replaceable(deps[j], registered))
    && (forall j, k :: i <= j < k < |deps| && NeedsFallback(deps[j], registered) && NeedsFallback(deps[k], registered)
          ==> deps[j].name != deps[k].name)
  }

  function Unregistered(deps: seq<ServiceDependency>, i: nat, registered: set<Name>): set<Name> {
    set j | i <= j < |deps| && NeedsFallback(deps[j], registered) :: deps[j].name
  }

  function Substitutes(deps: seq<ServiceDependency>, i: nat, registered: set<Name>): set<Name> {
    set j | i <= j < |deps| && NeedsFallback(deps[j], registered) && deps[j].fallback.Some? :: deps[j].fallback.value
  }

  /** Validation accepts a service if and only if each unregistered Required dependency
      has a usable fallback, is still an edge, and is named only once; it then swaps
      exactly those edges for the fallbacks. */
  lemma {:induction false} CheckMeaning(deps: seq<ServiceDependency>, i: nat, edges: set<Name>, registered: set<Name>)
    requires i <= |deps|
    ensures CheckFrom(deps, i, edges, registered).Clear?
       <==> Substitutable(deps, i, registered) && Unregistered(deps, i, registered) <= edges
    ensures CheckFrom(deps, i, edges, registered).Clear? ==>
              CheckFrom(deps, i, edges, registered).edges
              == edges - Unregistered(deps, i, registered) + Substitutes(deps, i, registered)
    decreases |deps| - i
  {
    if i < |deps| {
      var d := deps[i];
      if NeedsFallback(d, registered) {
        assert d.name in Unregistered(deps, i, registered);
        assert Unregistered(deps, i, registered) == {d.name} + Unregistered(deps, i + 1, registered);
        if UsableFallback(d, registered) && d.name in edges {
          var edges' := edges - {d.name} + {d.fallback.value};
          CheckMeaning(deps, i + 1, edges', registered);
          assert Substitutes(deps, i, registered) == {d.fallback.value} + Substitutes(deps, i + 1, registered);
          assert d.fallback.value !in Unregistered(deps, i + 1, registered);
          if Substitutable(deps, i, registered) && Unregistered(deps, i, registered) <= edges {
            forall j | i < j < |deps| && NeedsFallback(deps[j], registered) ensures deps[j].name in edges' {
              assert deps[j].name in Unregistered(deps, i, registered);
            }
          }
          if Substitutable(deps, i + 1, registered) && Unregistered(deps, i + 1, registered) <= edges' {
            forall k | i < k < |deps| && NeedsFallback(deps[k], registered) ensures deps[k].name != d.name {
              assert deps[k].name in Unregistered(deps, i + 1, registered);
            }
          }
        }
      } else {
        CheckMeaning(deps, i + 1, edges, registered);
        assert Unregistered(deps, i, registered) == Unregistered(deps, i + 1, registered);
        assert Substitutes(deps, i, registered) == Substitutes(deps, i + 1, registered);
      }
    }
  }

  /** The edge to dependency `k` is there when its turn comes. */
  predicate Removable(deps: seq<ServiceDependency>, i: nat, edges: set<Name>, registered: set<Name>, k: int)
    requires i <= k < |deps|
  {
    && deps[k].name in edges
    && forall j :: i <= j < k && NeedsFallback(deps[j], registered) ==> deps[j].name != deps[k].name
  }

  /** The first dependency that cannot be satisfied is at position `at`. */
  predicate StopsAt(deps: seq<ServiceDependency>, i: nat, edges: set<Name>, registered: set<Name>, at: int) {
    && i <= at < |deps| && NeedsFallback(deps[at], registered)
    && (Replaceable(deps[at], registered) ==> !Removable(deps, i, edges, registered, at))
    && forall k :: i <= k < at && NeedsFallback(deps[k], registered) ==>
         Replaceable(deps[k], registered) && Removable(deps, i, edges, registered, k)
  }

  /** A rejection blames the first dependency that cannot be satisfied: it has no fallback,
      and then all missing names are reported, or the edge to it is gone. */
  lemma {:induction false} RejectionMeaning(deps: seq<ServiceDependency>, i: nat, edges: set<Name>,
                                            registered: set<Name>)
    returns (at: nat)
    requires i <= |deps| && !CheckFrom(deps, i, edges, registered).Clear?
    ensures StopsAt(deps, i, edges, registered, at)
    ensures CheckFrom(deps, i, edges, registered)
         == if Replaceable(deps[at], registered) then EdgeGone(deps[at].name)
            else Missing(MissingNames(deps, registered))
    decreases |deps| - i
  {
    var d := deps[i];
    if !NeedsFallback(d, registered) {
      at := RejectionMeaning(deps, i + 1, edges, registered);
      RemovableFrom(deps, i, edges, edges, registered);
    } else if Replaceable(d, registered) && d.name in edges {
      var edges' := edges - {d.name} + {d.fallback.value};
      at := RejectionMeaning(deps, i + 1, edges', registered);
      RemovableFrom(deps, i, edges, edges', registered);
    } else {
      at := i;
    }
  }

  lemma RemovableFrom(deps: seq<ServiceDependency>, i: nat, edges: set<Name>, edges': set<Name>, registered: set<Name>)
    requires i < |deps|
    requires if NeedsFallback(deps[i], registered)
             then deps[i].name in edges && Replaceable(deps[i], registered)
                  && edges' == edges - {deps[i].name} + {deps[i].fallback.value}
             else edges' == edges
    ensures forall k :: i < k < |deps| && NeedsFallback(deps[k], registered) ==>
              (Removable(deps, i + 1, edges', registered, k) <==> Removable(deps, i, edges, registered, k))
  {
  }

  /** The positions before `i` of what is missing. */
  function MissingBefore(deps: seq<ServiceDependency>, registered: set<Name>, i: nat): set<int> {
    set j | 0 <= j < i && j < |deps| && deps[j].kind == Required && deps[j].name !in registered
  }

  lemma {:induction false} MissingLast(deps: seq<ServiceDependency>, registered: set<Name>)
    requires deps != []
    ensures MissingNames(deps, registered)
         == MissingNames(deps[..|deps| - 1], registered)
            + (if NeedsFallback(deps[|deps| - 1], registered) then [deps[|deps| - 1].name] else [])
    decreases |deps|
  {
    if |deps| > 1 {
      MissingLast(deps[1..], registered);
      assert deps[1..][..|deps| - 2] == deps[..|deps| - 1][1..];
    }
  }

  lemma {:induction false} MissingCount(deps: seq<ServiceDependency>, registered: set<Name>)
    ensures |MissingNames(deps, registered)| == |MissingBefore(deps, registered, |deps|)|
    decreases |deps|
  {
    if deps != [] {
      var before, last := deps[..|deps| - 1], |deps| - 1;
      MissingCount(before, registered);
      MissingLast(deps, registered);
      MissingOneMore(deps, registered);
    }
  }

  lemma MissingOneMore(deps: seq<ServiceDependency>, registered: set<Name>)
    requires deps != []
    ensures var before, last := deps[..|deps| - 1], |deps| - 1;
            |MissingBefore(deps, registered, |deps|)|
            == |MissingBefore(before, registered, last)| + if NeedsFallback(deps[last], registered) then 1 else 0
  {
    var before, last := deps[..|deps| - 1], |deps| - 1;
    assert MissingBefore(deps, registered, |deps|)
        == MissingBefore(before, registered, last) + if NeedsFallback(deps[last], registered) then {last} else {};
  }

  /** The names reported are the unregistered Required ones, all of them, in order. */
  lemma {:induction false} MissingNamesMeaning(deps: seq<ServiceDependency>, registered: set<Name>, i: nat)
    requires i < |deps| && deps[i].kind == Required && deps[i].name !in registered
    ensures |MissingNames(deps, registered)| == |MissingBefore(deps, registered, |deps|)|
    ensures var rank := |MissingBefore(deps, registered, i)|;
            rank < |MissingNames(deps, registered)| && MissingNames(deps, registered)[rank] == deps[i].name
    decreases |deps|
  {
    MissingCount(deps, registered);
    MissingLast(deps, registered);
    var before := deps[..|deps| - 1];
    assert MissingBefore(deps, registered, i) == MissingBefore(before, registered, i);
    if i < |deps| - 1 { MissingNamesMeaning(before, registered, i); } else { MissingCount(before, registered); }
  }

  /** Registering `name` keeps every registered dependency an edge if and only if no other
      service has lost its edge to `name`; the hypotheses are what registration ensures. */
  lemma CoversAfterRegistration(nodes: Nodes, graph: Graph, nodes': Nodes, graph': Graph, name: Name,
                                deps: seq<ServiceDependency>)
    requires Covers(nodes, graph) && nodes' == nodes[name := DependencyNode(deps, None, 0)]
    requires Succ(graph', name) == Succ(graph, name) + RequiredNames(deps)
    requires forall s :: s != name ==> Succ(graph', s) == Succ(graph, s)
    ensures Covers(nodes', graph') <==> NoLostEdge(nodes, graph, name)
  {
    if Covers(nodes', graph') {
      forall s | s in nodes && s != name && name in RequiredNames(nodes[s].dependencies)
        ensures name in Succ(graph, s)
      {
        assert s in nodes' && name in nodes';
      }
    }
  }

  /** Once a fallback has been substituted for a service, no later validation of that
      service with the same registrations can succeed: the edge it wants to remove is gone. */
  lemma SecondValidationFails(deps: seq<ServiceDependency>, edges: set<Name>, registered: set<Name>)
    requires CheckFrom(deps, 0, edges, registered).Clear?
    ensures CheckFrom(deps, 0, CheckFrom(deps, 0, edges, registered).edges, registered).Clear?
       <==> RequiredNames(deps) <= registered
  {
    var edges' := CheckFrom(deps, 0, edges, registered).edges;
    CheckMeaning(deps, 0, edges, registered);
    CheckMeaning(deps, 0, edges', registered);
    if RequiredNames(deps) <= registered {
      forall j | 0 <= j < |deps| ensures !NeedsFallback(deps[j], registered) {
        assert deps[j].kind.Required? ==> deps[j].name in RequiredNames(deps);
      }
      assert Unregistered(deps, 0, registered) == {};
    } else {
      var n :| n in RequiredNames(deps) && n !in registered;
      var d :| d in deps && d.kind.Required? && d.name == n;
      var j :| 0 <= j < |deps| && deps[j] == d;
      assert n in Unregistered(deps, 0, registered);
      assert n !in Substitutes(deps, 0, registered);
    }
  }

  // ---------------------------------------------------------------- staging

  /** `k` is the stage right after the highest stage among the dependencies `names` that
      are registered and have one, or 0 if there is none. */
  ghost predicate StageAfter(nodes: Nodes, names: set<Name>, k: nat) {
    && (forall n :: n in names && n in nodes && nodes[n].stage.Some? ==> nodes[n].stage.value < k)
    && (k > 0 ==> exists n :: n in names && n in nodes && nodes[n].stage == Some((k - 1) as nat))
  }

  /** `order` lists the registered names, each once. */
  ghost predicate Lists(order: seq<Name>, nodes: Nodes) {
    NoDuplicates(order) && Elements(order) == nodes.Keys
  }

  /** The stage right after the highest one among the Required dependencies. */
  function NextStage(nodes: Nodes, deps: seq<ServiceDependency>): nat
    decreases |deps|
  {
    if deps == [] then 0
    else
      var before, d := NextStage(nodes, deps[..|deps| - 1]), deps[|deps| - 1];
      if d.kind.Required? && d.name in nodes && nodes[d.name].stage.Some? && nodes[d.name].stage.value >= before
      then nodes[d.name].stage.value + 1 else before
  }

  /** The nodes after the services in `order` have been restaged one after the other. */
  function Pass(nodes: Nodes, order: seq<Name>): Nodes
    decreases |order|
  {
    if order == [] then nodes
    else
      var before, s := Pass(nodes, order[..|order| - 1]), order[|order| - 1];
      if s in before then Staged(before, s, NextStage(before, before[s].dependencies)) else before
  }

  /** The stage lists that the same pass collects. */
  function Collected(nodes: Nodes, order: seq<Name>): Stages
    decreases |order|
  {
    if order == [] then map[]
    else
      var before, s := Pass(nodes, order[..|order| - 1]), order[|order| - 1];
      var listed := Collected(nodes, order[..|order| - 1]);
      if s in before then Filed(listed, s, NextStage(before, before[s].dependencies)) else listed
  }

  /** The nodes as the peeling stamps them. */
  function Levelled(nodes: Nodes, level: map<Name, nat>): Nodes {
    map s | s in nodes :: nodes[s].(stage := if s in level then Some(level[s]) else nodes[s].stage)
  }

  /** Only the stages of vertices change, to their levels. */
  lemma LevelledMeaning(nodes: Nodes, level: map<Name, nat>)
    ensures OnlyStagesDiffer(nodes, Levelled(nodes, level))
    ensures forall s :: s in nodes ==>
              Levelled(nodes, level)[s].stage == if s in level then Some(level[s]) else nodes[s].stage
  {
  }

  ghost predicate SameStageNumbers(a: Nodes, b: Nodes) {
    forall s :: s in b ==> s in a && a[s].stage == b[s].stage
  }

  /** The stages are those of one pass, in registration order, over the peeled graph. */
  ghost predicate StagedByPass(was: Nodes, nodes: Nodes, graph: Graph, order: seq<Name>) {
    exists level :: Levelling(graph, level) && SameStageNumbers(Pass(Levelled(was, level), order), nodes)
  }

  /** Both node maps have the same services and the same stages for whatever is Required. */
  ghost predicate Agree(a: Nodes, b: Nodes) {
    && SameServices(a, b)
    && forall s, n :: s in a && n in RequiredNames(a[s].dependencies) && n in a ==> a[n].stage == b[n].stage
  }

  lemma {:induction false} NextStageIsAfter(nodes: Nodes, deps: seq<ServiceDependency>)
    ensures StageAfter(nodes, RequiredNames(deps), NextStage(nodes, deps))
    decreases |deps|
  {
    if deps != [] {
      NextStageIsAfter(nodes, deps[..|deps| - 1]);
      RequiredNamesStep(deps, |deps| - 1);
      assert deps[..|deps|] == deps;
    }
  }

  lemma {:induction false} NextStageAgrees(a: Nodes, b: Nodes, deps: seq<ServiceDependency>)
    requires a.Keys == b.Keys && forall n :: n in RequiredNames(deps) && n in a ==> a[n].stage == b[n].stage
    ensures NextStage(a, deps) == NextStage(b, deps)
    decreases |deps|
  {
    if deps != [] {
      RequiredNamesStep(deps, |deps| - 1);
      assert deps[..|deps|] == deps;
      NextStageAgrees(a, b, deps[..|deps| - 1]);
    }
  }

  /** Two passes in the same order from node maps that agree end in the same stages. */
  lemma {:induction false} PassAgrees(a: Nodes, b: Nodes, order: seq<Name>)
    requires Agree(a, b) && forall s :: s in order ==> s in a
    ensures Agree(Pass(a, order), Pass(b, order)) && SameServices(a, Pass(a, order))
    ensures forall s :: s in order ==> Pass(a, order)[s].stage == Pass(b, order)[s].stage
    decreases |order|
  {
    if order != [] {
      var earlier, s := order[..|order| - 1], order[|order| - 1];
      LastApart(order);
      PassAgrees(a, b, earlier);
      AgreeStep(Pass(a, earlier), Pass(b, earlier), s);
    }
  }

  lemma AgreeStep(a: Nodes, b: Nodes, s: Name)
    requires Agree(a, b) && s in a
    ensures var a', b' := Staged(a, s, NextStage(a, a[s].dependencies)), Staged(b, s, NextStage(b, b[s].dependencies));
            Agree(a', b') && SameServices(a, a') && a'[s].stage == b'[s].stage
  {
    NextStageAgrees(a, b, a[s].dependencies);
    StagedAgree(a, b, s, NextStage(a, a[s].dependencies));
  }

  lemma StagedAgree(a: Nodes, b: Nodes, s: Name, k: nat)
    requires Agree(a, b) && s in a
    ensures Agree(Staged(a, s, k), Staged(b, s, k)) && SameServices(a, Staged(a, s, k))
  {
    assert SameServices(Staged(a, s, k), Staged(b, s, k));
  }

  /** `stages` lists each service of `done` exactly once, under its own stage number, and
      has no empty stage. */
  ghost predicate StagesList(stages: Stages, nodes: Nodes, done: set<Name>) {
    && (forall s :: s in done ==> s in nodes && nodes[s].stage.Some? && ListedAt(stages, s, nodes[s].stage.value))
    && (forall k: nat, s :: ListedAt(stages, s, k) ==> s in done && s in nodes && nodes[s].stage == Some(k))
    && (forall k :: k in stages ==> stages[k] != [] && NoDuplicates(stages[k]))
  }

  predicate ListedAt(stages: Stages, s: Name, k: nat) {
    k in stages && s in stages[k]
  }

  /** Every registered Required dependency sits in a strictly earlier stage. */
  ghost predicate DependenciesEarlier(nodes: Nodes) {
    forall s, n :: s in nodes && n in RequiredNames(nodes[s].dependencies) && n in nodes ==>
      nodes[s].stage.Some? && nodes[n].stage.Some? && nodes[n].stage.value < nodes[s].stage.value
  }

  /** The level the peeling gave a vertex; isolated services count as level 0. */
  function LevelOf(level: map<Name, nat>, s: Name): nat {
    if s in level then level[s] else 0
  }

  ghost predicate SameServices(nodes: Nodes, nodes': Nodes) {
    nodes'.Keys == nodes.Keys && forall s :: s in nodes ==> nodes'[s].dependencies == nodes[s].dependencies
  }

  function Roots(nodes: Nodes, graph: Graph): set<Name> {
    (set s | s in graph && graph[s] == {}) + (set s | s in nodes && s !in graph)
  }

  lemma RootsMeaning(nodes: Nodes, graph: Graph, v: Name)
    ensures v in Roots(nodes, graph) <==> (v in nodes || v in graph) && Succ(graph, v) == {}
  {
  }

  // ---------------------------------------------------------------- depths

  /** Edges lead from `s` along `p` down to a registered service that has none. */
  ghost predicate DownAlong(registered: set<Name>, graph: Graph, s: Name, p: seq<Name>) {
    WalkFrom(graph, s, p) && p[|p| - 1] in registered && Succ(graph, p[|p| - 1]) == {}
  }

  /** Some way down has `k` edges. */
  ghost predicate DownIn(registered: set<Name>, graph: Graph, s: Name, k: nat) {
    exists p :: DownAlong(registered, graph, s, p) && |p| == k + 1
  }

  ghost predicate LeadsDown(registered: set<Name>, graph: Graph, s: Name) {
    exists k: nat :: DownIn(registered, graph, s, k)
  }

  /** The shortest way down has `k` edges. */
  ghost predicate ShortestDown(registered: set<Name>, graph: Graph, s: Name, k: nat) {
    DownIn(registered, graph, s, k) && forall m: nat :: DownIn(registered, graph, s, m) ==> k <= m
  }

  /** A way down is a walk from a root, the other way round. */
  lemma DownIsRooted(nodes: Nodes, graph: Graph, reverse: Graph, s: Name, k: nat)
    requires Transposed(graph, reverse) && graph.Keys <= nodes.Keys
    ensures RootedWalk(reverse, Roots(nodes, graph), s, k) <==> DownIn(nodes.Keys, graph, s, k)
  {
    var roots := Roots(nodes, graph);
    if p :| DownAlong(nodes.Keys, graph, s, p) && |p| == k + 1 {
      WalkReversed(graph, reverse, p);
      RootsMeaning(nodes, graph, p[|p| - 1]);
      assert Reversed(p)[0] in roots && Reversed(p)[k] == s;
    }
    if q :| Walk(reverse, q) && q[0] in roots && q[|q| - 1] == s && |q| == k + 1 {
      WalkReversed(reverse, graph, q);
      RootsMeaning(nodes, graph, q[0]);
      assert DownAlong(nodes.Keys, graph, s, Reversed(q));
    }
  }

  lemma DistanceIsDown(nodes: Nodes, graph: Graph, reverse: Graph, s: Name)
    requires Transposed(graph, reverse) && graph.Keys <= nodes.Keys
    ensures BreadthFirst.Rooted(reverse, Roots(nodes, graph), s) <==> LeadsDown(nodes.Keys, graph, s)
    ensures forall k: nat :: Distance(reverse, Roots(nodes, graph), s, k) <==> ShortestDown(nodes.Keys, graph, s, k)
  {
    forall k: nat ensures RootedWalk(reverse, Roots(nodes, graph), s, k) <==> DownIn(nodes.Keys, graph, s, k) {
      DownIsRooted(nodes, graph, reverse, s, k);
    }
  }

  lemma DownOnce(registered: set<Name>, graph: Graph, s: Name)
    requires s in registered && Succ(graph, s) == {}
    ensures DownIn(registered, graph, s, 0)
  {
    assert DownAlong(registered, graph, s, [s]);
  }

  lemma DownOneMore(registered: set<Name>, graph: Graph, s: Name, d: Name, k: nat)
    requires d in Succ(graph, s) && DownIn(registered, graph, d, k)
    ensures DownIn(registered, graph, s, k + 1)
  {
    var p :| DownAlong(registered, graph, d, p) && |p| == k + 1;
    WalkPrepend(graph, s, p);
    assert DownAlong(registered, graph, s, [s] + p);
  }

  /** A way down with an edge goes on from a registered successor. */
  lemma DownOneLess(registered: set<Name>, graph: Graph, s: Name, k: nat) returns (d: Name)
    requires graph.Keys <= registered && DownIn(registered, graph, s, k) && k > 0
    ensures d in Succ(graph, s) && d in registered && DownIn(registered, graph, d, k - 1)
  {
    var p :| DownAlong(registered, graph, s, p) && |p| == k + 1;
    d := p[1];
    assert p[1] in Succ(graph, p[0]);
    if k > 1 { assert p[2] in Succ(graph, p[1]); }
    WalkSlice(graph, p, 1, |p|);
    assert DownAlong(registered, graph, d, p[1..]);
  }

  lemma NoWayAtOnce(registered: set<Name>, graph: Graph, s: Name)
    requires DownIn(registered, graph, s, 0)
    ensures s in registered && Succ(graph, s) == {}
  {
  }

  /** A service without edges has depth 0; any other one is one deeper than the least deep
      of its dependencies that lead down. */
  lemma DepthIsOneMore(nodes: Nodes, graph: Graph, s: Name)
    requires DepthsRight(nodes, graph) && graph.Keys <= nodes.Keys && s in nodes && LeadsDown(nodes.Keys, graph, s)
    ensures Succ(graph, s) == {} <==> nodes[s].depth == 0
    ensures forall d :: d in Succ(graph, s) && d in nodes && LeadsDown(nodes.Keys, graph, d) ==>
              nodes[s].depth <= nodes[d].depth + 1
    ensures Succ(graph, s) != {} ==>
              exists d :: d in Succ(graph, s) && d in nodes && LeadsDown(nodes.Keys, graph, d)
                          && nodes[s].depth == nodes[d].depth + 1
  {
    var k := nodes[s].depth;
    assert ShortestDown(nodes.Keys, graph, s, k);
    if Succ(graph, s) == {} { DownOnce(nodes.Keys, graph, s); }
    forall d | d in Succ(graph, s) && d in nodes && LeadsDown(nodes.Keys, graph, d)
      ensures nodes[s].depth <= nodes[d].depth + 1
    {
      DownOneMore(nodes.Keys, graph, s, d, nodes[d].depth);
    }
    if k > 0 {
      var d := DownOneLess(nodes.Keys, graph, s, k);
      assert LeadsDown(nodes.Keys, graph, d);
    } else {
      NoWayAtOnce(nodes.Keys, graph, s);
    }
  }

  // ---------------------------------------------------------------- the resolver

  function Rejection(s: Name, c: Check): Option<Resolution> {
    match c
    case Clear(_) => None
    case Missing(names) => Some(MissingRequired(s, names))
    case EdgeGone(dep) => Some(EdgeAlreadyGone(s, dep))
  }

  /** Validation accepts every service and leaves the edges of `graph'`. */
  ghost predicate Accepted(nodes: Nodes, graph: Graph, graph': Graph) {
    forall s :: s in nodes ==>
      CheckFrom(nodes[s].dependencies, 0, Succ(graph, s), nodes.Keys) == Clear(Succ(graph', s))
  }

  /** Some service is rejected in this way. */
  ghost predicate RejectedAs(nodes: Nodes, graph: Graph, rejection: Option<Resolution>) {
    exists s :: s in nodes
      && rejection == Rejection(s, CheckFrom(nodes[s].dependencies, 0, Succ(graph, s), nodes.Keys))
  }

  /** What a rejection blames on whom. */
  ghost predicate Blames(nodes: Nodes, graph: Graph, s: Name, at: int, r: Resolution) {
    s in nodes && StopsAt(nodes[s].dependencies, 0, Succ(graph, s), nodes.Keys, at)
    && var d := nodes[s].dependencies[at];
       if Replaceable(d, nodes.Keys) then r == EdgeAlreadyGone(s, d.name)
       else r == MissingRequired(s, MissingNames(nodes[s].dependencies, nodes.Keys))
  }

  lemma RejectedMeaning(nodes: Nodes, graph: Graph, r: Resolution) returns (s: Name, at: nat)
    requires RejectedAs(nodes, graph, Some(r))
    ensures Blames(nodes, graph, s, at, r)
  {
    s :| s in nodes && Some(r) == Rejection(s, CheckFrom(nodes[s].dependencies, 0, Succ(graph, s), nodes.Keys));
    at := RejectionMeaning(nodes[s].dependencies, 0, Succ(graph, s), nodes.Keys);
  }

  /** From `g` to `g'` no edge to a registered service goes, and no other edge comes. */
  ghost predicate EdgesToRegistered(g: Graph, g': Graph, registered: set<Name>) {
    && (forall u, v :: v in Succ(g, u) && v in registered ==> v in Succ(g', u))
    && (forall u, v :: v in Succ(g', u) ==> v in registered || v in Succ(g, u))
  }

  class CycleSearch {
    var visited: set<Name>
    var recStack: set<Name>

    constructor ()
      ensures visited == {} && recStack == {}
    {
      visited, recStack := {}, {};
    }
  }

  class ServiceDependencyResolver {
    var nodes: Nodes
    /** The registered names in the order of the nodes' dict: by first registration. */
    var order: seq<Name>
    var graph: Graph
    var reverse: Graph
    var stages: Stages
    var circularPaths: seq<seq<Name>>

    ghost predicate Valid()
      reads this
    {
      && Lists(order, nodes)
      && graph.Keys <= nodes.Keys
      && Transposed(graph, reverse)
      && PathsClosed()
    }

    ghost predicate PathsClosed()
      reads this`graph, this`circularPaths
    {
      forall i :: 0 <= i < |circularPaths| ==> ClosedWalk(graph, circularPaths[i])
    }

    constructor ()
      ensures Valid() && nodes == map[] && order == [] && graph == map[] && stages == map[] && circularPaths == []
      ensures Strict(nodes, graph) && Exact(nodes, graph)
    {
      nodes, order, graph, reverse, stages, circularPaths := map[], [], map[], map[], map[], [];
    }

    function CheckOf(s: Name): Check
      requires s in nodes
      reads this`nodes, this`graph
    {
      CheckFrom(nodes[s].dependencies, 0, Succ(graph, s), nodes.Keys)
    }

    /** Registration replaces the node but only ever adds edges: the edges of an earlier
        registration under the same name stay. */
    method AddService(name: Name, dependencies: seq<ServiceDependency>)
      requires Valid()
      modifies this`nodes, this`order, this`graph, this`reverse
      ensures Valid()
      ensures order == if name in old(nodes) then old(order) else old(order) + [name]
      ensures nodes == old(nodes)[name := DependencyNode(dependencies, None, 0)]
      ensures Succ(graph, name) == old(Succ(graph, name)) + RequiredNames(dependencies)
      ensures forall s :: s != name ==> Succ(graph, s) == old(Succ(graph, s))
      ensures graph.Keys == old(graph.Keys) + if RequiredNames(dependencies) != {} then {name} else {}
      ensures old(Strict(nodes, graph)) ==> Strict(nodes, graph)
      ensures old(Exact(nodes, graph)) && name !in old(nodes) ==> Exact(nodes, graph)
    {
      order := if name in nodes then order else order + [name];
      nodes := nodes[name := DependencyNode(dependencies, None, 0)];
      ghost var g := graph;
      AddEdges(name, dependencies);
      forall i | 0 <= i < |circularPaths| ensures ClosedWalk(graph, circularPaths[i]) {
        WalkInLarger(g, graph, circularPaths[i]);
      }
    }

    method AddEdges(name: Name, dependencies: seq<ServiceDependency>)
      requires Transposed(graph, reverse)
      modifies this`graph, this`reverse
      ensures Transposed(graph, reverse)
      ensures Succ(graph, name) == old(Succ(graph, name)) + RequiredNames(dependencies)
      ensures forall s :: s != name ==> Succ(graph, s) == old(Succ(graph, s))
      ensures graph.Keys == old(graph.Keys) + if RequiredNames(dependencies) != {} then {name} else {}
    {
      ghost var g := graph;
      for i := 0 to |dependencies|
        invariant Transposed(graph, reverse) && graph == Graphs.AddEdges(g, name, RequiredNames(dependencies[..i]))
      {
        var dep := dependencies[i];
        RequiredNamesStep(dependencies, i);
        if dep.kind.Required? {
          AddEdgeTransposed(graph, reverse, name, dep.name);
          AddOneMore(g, name, RequiredNames(dependencies[..i]), dep.name);
          graph := AddEdge(graph, name, dep.name);
          reverse := AddEdge(reverse, dep.name, name);
        } else {
          assert RequiredNames(dependencies[..i + 1]) == RequiredNames(dependencies[..i]);
        }
      }
      assert dependencies[..|dependencies|] == dependencies;
    }

    /** One service of `_validate_dependencies`: fallbacks replace edges one by one until
        a dependency is rejected. */
    method ValidateService(s: Name) returns (rejection: Option<Resolution>)
      requires s in nodes && graph.Keys <= nodes.Keys && Transposed(graph, reverse)
      modifies this`graph, this`reverse
      ensures graph.Keys == old(graph.Keys) && Transposed(graph, reverse)
      ensures rejection == Rejection(s, old(CheckOf(s)))
      ensures rejection.None? ==> Succ(graph, s) == old(CheckOf(s)).edges
      ensures forall x :: x != s ==> Succ(graph, x) == old(Succ(graph, x))
      ensures EdgesToRegistered(old(graph), graph, nodes.Keys)
    {
      var deps := nodes[s].dependencies;
      ghost var g := graph;
      for i := 0 to |deps|
        invariant graph.Keys == g.Keys && Transposed(graph, reverse)
        invariant CheckFrom(deps, i, Succ(graph, s), nodes.Keys) == old(CheckOf(s))
        invariant forall x :: x != s ==> Succ(graph, x) == Succ(g, x)
        invariant EdgesToRegistered(g, graph, nodes.Keys)
      {
        var dep := deps[i];
        if dep.kind.Required? && dep.name !in nodes {
          if !UsableFallback(dep, nodes.Keys) {
            return Some(MissingRequired(s, MissingNames(deps, nodes.Keys)));
          }
          if dep.name !in Succ(graph, s) {
            return Some(EdgeAlreadyGone(s, dep.name));
          }
          SubstituteTransposed(graph, reverse, s, dep.name, dep.fallback.value);
          ghost var before := graph;
          graph := AddEdge(RemoveEdge(graph, s, dep.name), s, dep.fallback.value);
          reverse := AddEdge(RemoveEdge(reverse, dep.name, s), dep.fallback.value, s);
          assert Succ(graph, s) == Succ(before, s) - {dep.name} + {dep.fallback.value};
        }
      }
      return None;
    }

    /** Accepts every service, or stops at some service it rejects, keeping what it has
        substituted so far. */
    method ValidateDependencies() returns (rejection: Option<Resolution>)
      requires Valid()
      modifies this`graph, this`reverse
      ensures Valid() && graph.Keys == old(graph.Keys)
      ensures rejection.None? ==> Accepted(nodes, old(graph), graph)
      ensures rejection.Some? ==> RejectedAs(nodes, old(graph), rejection)
      ensures EdgesToRegistered(old(graph), graph, nodes.Keys)
    {
      var todo := nodes.Keys;
      ghost var g := graph;
      while todo != {}
        invariant todo <= nodes.Keys && graph.Keys == g.Keys && Transposed(graph, reverse)
        invariant forall s :: s in todo ==> Succ(graph, s) == Succ(g, s)
        invariant forall s :: s in nodes && s !in todo ==> old(CheckOf(s)) == Clear(Succ(graph, s))
        invariant EdgesToRegistered(g, graph, nodes.Keys)
        decreases todo
      {
        var s :| s in todo;
        todo := todo - {s};
        rejection := ValidateService(s);
        if rejection.Some? {
          PathsSurvive(g);
          return;
        }
      }
      PathsSurvive(g);
      return None;
    }

    lemma PathsSurvive(g: Graph)
      requires g.Keys <= nodes.Keys
      requires forall i :: 0 <= i < |circularPaths| ==> ClosedWalk(g, circularPaths[i])
      requires EdgesToRegistered(g, graph, nodes.Keys)
      ensures forall i :: 0 <= i < |circularPaths| ==> ClosedWalk(graph, circularPaths[i])
    {
      forall i | 0 <= i < |circularPaths| ensures ClosedWalk(graph, circularPaths[i]) {
        ClosedWalkSurvives(g, graph, nodes.Keys, circularPaths[i]);
      }
    }

    ghost predicate Searching(search: CycleSearch)
      reads this`graph, search
    {
      search.recStack <= search.visited && Finished(graph, search.visited - search.recStack)
    }

    /** Depth-first search from `node`, reached along `path`. It answers `true` after
        recording a closed walk; otherwise everything it visited is finished with. */
    method Dfs(node: Name, path: seq<Name>, search: CycleSearch) returns (found: bool)
      requires PathsClosed() && Searching(search)
      requires node !in search.visited && node in nodes.Keys + Vertices(graph)
      requires search.recStack == set v | v in path
      requires path != [] ==> Walk(graph, path) && node in Succ(graph, path[|path| - 1])
      modifies search, this`circularPaths
      ensures PathsClosed()
      ensures found ==> |circularPaths| == |old(circularPaths)| + 1
      ensures found ==> circularPaths[..|old(circularPaths)|] == old(circularPaths)
      ensures !found ==> circularPaths == old(circularPaths)
      ensures !found ==> Searching(search) && search.recStack == old(search.recStack)
                         && search.visited >= old(search.visited) + {node}
      decreases nodes.Keys + Vertices(graph) - search.visited
    {
      search.visited := search.visited + {node};
      search.recStack := search.recStack + {node};
      var here := path + [node];
      if path != [] { WalkAppend(graph, path, node); }
      assert search.recStack == set v | v in here;
      assert search.visited - search.recStack == old(search.visited - search.recStack);
      ghost var seen := search.visited;
      var todo := Succ(graph, node);
      while todo != {}
        invariant PathsClosed() && circularPaths == old(circularPaths)
        invariant Searching(search) && search.recStack == old(search.recStack) + {node}
        invariant seen <= search.visited
        invariant todo <= Succ(graph, node)
        invariant forall v :: v in Succ(graph, node) && v !in todo ==> v in search.visited - search.recStack
        decreases todo
      {
        var neighbor :| neighbor in todo;
        todo := todo - {neighbor};
        if neighbor !in search.visited {
          found := Dfs(neighbor, here, search);
          if found { return; }
        } else if neighbor in search.recStack {
          RecordCycle(here, neighbor);
          return true;
        }
      }
      FinishOne(graph, search.visited - search.recStack, node);
      search.recStack := search.recStack - {node};
      assert search.recStack == old(search.recStack);
      assert search.visited - search.recStack == search.visited - (old(search.recStack) + {node}) + {node};
      return false;
    }

    method RecordCycle(path: seq<Name>, neighbor: Name)
      requires PathsClosed() && Walk(graph, path) && neighbor in path && neighbor in Succ(graph, path[|path| - 1])
      modifies this`circularPaths
      ensures PathsClosed()
      ensures circularPaths == old(circularPaths) + [path[IndexOf(path, neighbor)..] + [neighbor]]
    {
      CycleCloses(graph, path, neighbor);
      circularPaths := circularPaths + [path[IndexOf(path, neighbor)..] + [neighbor]];
    }

    /** Sound and complete: the error branch is taken if and only if the graph has a
        cycle, and then the path just recorded is one. */
    method DetectCircularDependencies() returns (found: bool)
      requires Valid()
      modifies this`circularPaths
      ensures Valid()
      ensures found <==> !Acyclic(graph)
      ensures found ==> circularPaths != [] && ClosedWalk(graph, circularPaths[|circularPaths| - 1])
      ensures found ==> circularPaths[..|circularPaths| - 1] == old(circularPaths)
      ensures !found ==> circularPaths == old(circularPaths)
    {
      var search := new CycleSearch();
      var todo := nodes.Keys;
      while todo != {}
        invariant PathsClosed() && circularPaths == old(circularPaths) && fresh(search)
        invariant Searching(search) && search.recStack == {}
        invariant todo <= nodes.Keys && nodes.Keys - todo <= search.visited
        decreases todo
      {
        var node :| node in todo;
        todo := todo - {node};
        if node !in search.visited {
          found := Dfs(node, [], search);
          if found {
            assert ClosedWalk(graph, circularPaths[|circularPaths| - 1]);
            return;
          }
        }
      }
      FinishedAllAcyclic(graph, search.visited - search.recStack);
      return false;
    }

    /** Peels the graph into batches and stamps each registered vertex with its batch
        number, which is its level. Vertices outside the graph keep what they have. */
    method CalculateStages() returns (cycle: bool, ghost level: map<Name, nat>)
      modifies this`nodes, this`stages
      ensures cycle <==> !Acyclic(graph)
      ensures cycle ==> nodes == old(nodes)
      ensures !cycle ==> Levelling(graph, level) && nodes == Levelled(old(nodes), level) && ListsLevels(stages, level)
      ensures !cycle ==> OnlyStagesDiffer(old(nodes), nodes) && forall s :: s in nodes ==>
                nodes[s].stage == if s in level then Some(level[s]) else old(nodes)[s].stage
    {
      var batches, stuck;
      batches, stuck, level := Sorter.Batches(graph);
      if stuck != {} { return true, level; }
      ghost var was := nodes;
      for stage := 0 to |batches|
        invariant nodes == StampAll(was, batches[..stage]) && ListsBatches(stages, batches, stage)
      {
        StampOneMore(was, batches, stage);
        var ready := SetToSeq(batches[stage]);
        stages := stages[stage := ready];
        StampStage(ready, stage, batches[stage]);
      }
      assert batches[..|batches|] == batches;
      StampedByLevel(was, batches, level);
      LevelledMeaning(was, level);
      ListedByLevel(stages, batches, level);
      return false, level;
    }

    method StampStage(ready: seq<Name>, stage: nat, ghost batch: set<Name>)
      requires forall s :: s in ready <==> s in batch
      modifies this`nodes
      ensures nodes == StampBatch(old(nodes), batch, stage)
    {
      ghost var was := nodes;
      for i := 0 to |ready|
        invariant nodes == StampBatch(was, Elements(ready[..i]), stage)
      {
        assert Elements(ready[..i + 1]) == Elements(ready[..i]) + {ready[i]} by {
          assert ready[..i + 1] == ready[..i] + [ready[i]];
        }
        if ready[i] in nodes {
          nodes := nodes[ready[i] := nodes[ready[i]].(stage := Some(stage))];
        }
      }
      assert ready[..|ready|] == ready && Elements(ready) == batch;
    }

    method MaxDependencyStage(s: Name) returns (max: int)
      requires s in nodes
      ensures max >= -1 && max + 1 == NextStage(nodes, nodes[s].dependencies)
    {
      max := -1;
      var deps := nodes[s].dependencies;
      for i := 0 to |deps|
        invariant max >= -1 && max + 1 == NextStage(nodes, deps[..i])
      {
        var dep := deps[i];
        assert deps[..i + 1][..i] == deps[..i];
        if dep.kind.Required? && dep.name in nodes {
          if nodes[dep.name].stage.Some? && nodes[dep.name].stage.value > max {
            max := nodes[dep.name].stage.value;
          }
        }
      }
      assert deps[..|deps|] == deps;
    }

    /** Breadth-first from the dependency-free vertices along dependents: each service
        that leads down to one gets the length of its shortest way there; any other keeps
        the depth it had. */
    method CalculateDepths()
      requires graph.Keys <= nodes.Keys && Transposed(graph, reverse)
      modifies this`nodes
      ensures DepthsSet(old(nodes), nodes, graph)
    {
      var roots := Roots(nodes, graph);
      var starts := SetToSeq(roots);
      var depth := BreadthFirst.Depths(reverse, roots, starts);
      forall s ensures s in depth <==> LeadsDown(nodes.Keys, graph, s) { DistanceIsDown(nodes, graph, reverse, s); }
      forall s | s in depth ensures ShortestDown(nodes.Keys, graph, s, depth[s]) {
        DistanceIsDown(nodes, graph, reverse, s);
      }
      nodes := map s | s in nodes :: if s in depth then nodes[s].(depth := depth[s]) else nodes[s];
    }

    /** Measures the depths, which leaves the stages alone, and goes on to reassign them. */
    method OptimizeStages() returns (ghost measured: Nodes)
      requires Lists(order, nodes) && graph.Keys <= nodes.Keys && Transposed(graph, reverse)
      modifies this`nodes, this`stages
      ensures DepthsSet(old(nodes), measured, graph)
      ensures nodes == Pass(measured, order) && stages == Collected(measured, order)
    {
      CalculateDepths();
      measured := nodes;
      ReassignStages();
    }

    /** Reassigns every service, in registration order, to the stage after its highest
        current dependency, while the stages being read are already partly overwritten. */
    method ReassignStages()
      requires Lists(order, nodes)
      modifies this`nodes, this`stages
      ensures nodes == Pass(old(nodes), order) && stages == Collected(old(nodes), order)
    {
      var optimized: Stages := map[];
      ghost var was := nodes;
      for i := 0 to |order|
        invariant nodes == Pass(was, order[..i]) && optimized == Collected(was, order[..i])
        invariant nodes.Keys == was.Keys
      {
        var s := order[i];
        PassOneMore(was, order, i);
        var max := MaxDependencyStage(s);
        optimized, nodes := Filed(optimized, s, max + 1), Staged(nodes, s, max + 1);
      }
      assert order[..|order|] == order;
      stages := optimized;
    }

    /** Stages and depths of a graph without cycles. */
    method StageServices() returns (cycle: bool)
      requires Valid()
      modifies this`nodes, this`stages
      ensures Valid() && SameServices(old(nodes), nodes)
      ensures cycle <==> !Acyclic(graph)
      ensures !cycle ==> WellStaged(old(nodes), nodes, graph, stages, order)
      ensures !cycle ==> WellMeasured(old(nodes), nodes, graph)
    {
      ghost var was := nodes;
      cycle := StampAndOptimize();
      StaysValid(was);
    }

    method StampAndOptimize() returns (cycle: bool)
      requires graph.Keys <= nodes.Keys && Transposed(graph, reverse) && Lists(order, nodes)
      modifies this`nodes, this`stages
      ensures SameServices(old(nodes), nodes)
      ensures cycle <==> !Acyclic(graph)
      ensures !cycle ==> WellStaged(old(nodes), nodes, graph, stages, order)
      ensures !cycle ==> WellMeasured(old(nodes), nodes, graph)
    {
      ghost var was := nodes;
      ghost var level;
      cycle, level := CalculateStages();
      if !cycle {
        ghost var measured := OptimizeStages();
        PassStagesWell(was, measured, graph, order, level);
        PassMeasuresWell(was, measured, graph, order, level);
      }
    }

    /** Validates, substitutes, rejects cycles, stages and measures. It succeeds if and
        only if validation accepts every service and the resulting graph is acyclic. */
    method ResolveDependencies() returns (r: Resolution)
      requires Valid()
      modifies this`nodes, this`graph, this`reverse, this`stages, this`circularPaths
      ensures Valid() && SameServices(old(nodes), nodes) && graph.Keys == old(graph.Keys)
      ensures EdgesToRegistered(old(graph), graph, nodes.Keys)
      ensures r.Resolved? <==> Accepted(old(nodes), old(graph), graph) && Acyclic(graph)
      ensures r.Resolved? ==> r.stages == stages && WellStaged(old(nodes), nodes, graph, stages, order)
      ensures r.Resolved? ==> WellMeasured(old(nodes), nodes, graph)
      ensures r.Resolved? && old(Exact(nodes, graph)) ==> EveryoneMeasured(nodes, graph)
      ensures r.Circular? ==> !Acyclic(graph) && r.paths == circularPaths
                              && r.paths != [] && ClosedWalk(graph, r.paths[|r.paths| - 1])
      ensures if r.MissingRequired? || r.EdgeAlreadyGone?
              then RejectedAs(old(nodes), old(graph), Some(r)) else Accepted(old(nodes), old(graph), graph)
      ensures !r.UnexpectedCycle?
      ensures old(AllRegistered(nodes)) ==> (r.Resolved? <==> old(Acyclic(graph)))
    {
      ghost var nodes0, graph0 := nodes, graph;
      var rejection := ValidateDependencies();
      if rejection.Some? {
        NotAllRegistered(nodes0, graph0, rejection);
        r := rejection.value;
      } else {
        AfterAcceptance(nodes0, graph0, graph);
        r := DetectAndStage();
      }
    }

    method DetectAndStage() returns (r: Resolution)
      requires Valid()
      modifies this`nodes, this`stages, this`circularPaths
      ensures Valid() && SameServices(old(nodes), nodes)
      ensures if Acyclic(graph) then r == Resolved(stages) else r == Circular(circularPaths)
      ensures r.Resolved? ==> WellStaged(old(nodes), nodes, graph, stages, order)
      ensures r.Resolved? ==> WellMeasured(old(nodes), nodes, graph)
      ensures r.Circular? ==> circularPaths != [] && ClosedWalk(graph, circularPaths[|circularPaths| - 1])
    {
      var found := DetectCircularDependencies();
      if found {
        r := Circular(circularPaths);
      } else {
        var cycle := StageServices();
        r := if cycle then UnexpectedCycle else Resolved(stages);
      }
    }

    lemma StaysValid(was: Nodes)
      requires Lists(order, was) && graph.Keys <= was.Keys && Transposed(graph, reverse) && PathsClosed()
      requires SameServices(was, nodes)
      ensures Valid()
    {
    }

    /** The services stage by stage, sorted by name inside each stage. */
    method GetStartupOrder() returns (order: seq<Name>)
      ensures StagesList(stages, nodes, nodes.Keys) ==> InStageOrder(nodes, order)
    {
      var numbers := SortedNumbers(stages.Keys);
      order := [];
      for i := 0 to |numbers|
        invariant StagesList(stages, nodes, nodes.Keys) ==> PartlyOrdered(nodes, order, numbers[..i])
      {
        if StagesList(stages, nodes, nodes.Keys) { OrderOneStage(nodes, stages, order, numbers, i); }
        order := order + Sorted(stages[numbers[i]]);
      }
      assert numbers[..|numbers|] == numbers;
    }

    /** The services with a nonempty chain of dependencies down to `failedService`. */
    method GetImpactedServices(failedService: Name) returns (impacted: set<Name>)
      ensures forall s :: s in impacted <==> Reaches(reverse, failedService, s)
    {
      impacted := TraverseDependents(failedService, {});
      forall s ensures s in impacted <==> Reaches(reverse, failedService, s) {
        if Reaches(reverse, failedService, s) {
          var p :| WalkBetween(reverse, failedService, s, p) && |p| > 1;
          assert p[1] in Succ(reverse, p[0]);
          WalkStaysInClosed(reverse, impacted, p, 1, |p| - 1);
        }
      }
    }

    method TraverseDependents(service: Name, impacted: set<Name>) returns (impacted': set<Name>)
      ensures impacted <= impacted' && Succ(reverse, service) <= impacted'
      ensures forall s :: s in impacted' && s !in impacted ==>
                Reaches(reverse, service, s) && Succ(reverse, s) <= impacted'
      decreases Vertices(reverse) - impacted
    {
      impacted' := impacted;
      var todo := Succ(reverse, service);
      while todo != {}
        invariant todo <= Succ(reverse, service) && impacted <= impacted' && Succ(reverse, service) - todo <= impacted'
        invariant forall s :: s in impacted' && s !in impacted ==>
                  Reaches(reverse, service, s) && Succ(reverse, s) <= impacted'
        decreases todo
      {
        var dependent :| dependent in todo;
        todo := todo - {dependent};
        if dependent !in impacted' {
          ghost var before := impacted';
          ReachesStep(reverse, service, dependent);
          impacted' := TraverseDependents(dependent, impacted' + {dependent});
          forall s | s in impacted' && s !in before + {dependent} ensures Reaches(reverse, service, s) {
            ReachesPrepend(reverse, service, dependent, s);
          }
        }
      }
    }
  }

  /** What a successful resolution guarantees. Every service is listed once, under its
      stage and in registration order, and the stages are those of one pass in registration order. If every registered
      dependency was an edge, stages are the lengths of the longest mixed chains and
      dependencies are in earlier stages; if there were no other edges, they are
      longest-chain lengths. */
  ghost predicate WellStaged(was: Nodes, nodes: Nodes, graph: Graph, stages: Stages, order: seq<Name>) {
    && StagesList(stages, nodes, nodes.Keys) && ListedInOrder(stages, order) && BareFirst(nodes)
    && StagedByPass(was, nodes, graph, order)
    && (Covers(was, graph) ==> StagesAreMixed(nodes, graph, order) && DependenciesEarlier(nodes))
    && (ExactlyRegistered(was, graph) ==> StagesAreChains(nodes, graph))
  }

  /** Depths are the lengths of the shortest ways down, services without any keep theirs, and
      every service is measured if and only if each service with edges has one to a
      registered service. */
  ghost predicate WellMeasured(was: Nodes, nodes: Nodes, graph: Graph) {
    && DepthsRight(nodes, graph) && OthersKeepDepths(was, nodes, graph)
    && (EveryoneMeasured(nodes, graph) <==> KeepsRegistered(nodes.Keys, graph))
  }

  /** A service without registered Required dependencies is in stage 0. */
  ghost predicate BareFirst(nodes: Nodes) {
    forall s :: s in nodes && Bare(nodes, s) ==> nodes[s].stage == Some(0)
  }

  /** The current Required dependencies among registered services, without stale edges. */
  function Current(nodes: Nodes): Graph {
    map s | s in nodes :: set n | n in RequiredNames(nodes[s].dependencies) && n in nodes
  }

  function WiringOf(nodes: Nodes, graph: Graph, order: seq<Name>): Wiring {
    Wiring(Current(nodes), graph, order)
  }

  /** A service's stage is the length of its longest mixed chain. */
  ghost predicate StagesAreMixed(nodes: Nodes, graph: Graph, order: seq<Name>) {
    forall s :: s in nodes ==>
      nodes[s].stage.Some? && LongestMixed(WiringOf(nodes, graph, order), s, nodes[s].stage.value)
  }

  lemma CurrentWithin(nodes: Nodes, graph: Graph, order: seq<Name>)
    requires Covers(nodes, graph)
    ensures Within(WiringOf(nodes, graph, order))
  {
  }

  /** Hence every registered Required dependency is in an earlier stage. */
  lemma MixedStagesAscend(nodes: Nodes, graph: Graph, order: seq<Name>)
    requires StagesAreMixed(nodes, graph, order) && Covers(nodes, graph)
    ensures DependenciesEarlier(nodes)
  {
    var w := WiringOf(nodes, graph, order);
    CurrentWithin(nodes, graph, order);
    forall s, n | s in nodes && n in RequiredNames(nodes[s].dependencies) && n in nodes
      ensures nodes[s].stage.Some? && nodes[n].stage.Some? && nodes[n].stage.value < nodes[s].stage.value
    {
      assert LongestMixed(w, s, nodes[s].stage.value) && LongestMixed(w, n, nodes[n].stage.value);
      var q :| MixedFrom(w, n, q) && |q| == nodes[n].stage.value + 1;
      MixedPrepend(w, s, q);
    }
  }

  /** Without other edges than the registered dependencies, a service's stage is the length of
      its longest chain of edges, and no other number is. */
  lemma StageIsLongestChain(nodes: Nodes, graph: Graph, order: seq<Name>)
    requires StagesAreMixed(nodes, graph, order) && ExactlyRegistered(nodes, graph) && graph.Keys <= nodes.Keys
    ensures StagesAreChains(nodes, graph)
  {
    var w := WiringOf(nodes, graph, order);
    CurrentWithin(nodes, graph, order);
    forall s ensures Succ(w.current, s) == Succ(graph, s) { }
    forall s, p ensures MixedFrom(w, s, p) <==> WalkFrom(graph, s, p) {
      if MixedFrom(w, s, p) { MixedIsWalk(w, p); }
      if WalkFrom(graph, s, p) {
        WalkInLarger(graph, w.current, p);
        CurrentIsMixed(w, p);
      }
    }
    forall s, n: nat | s in nodes ensures nodes[s].stage == Some(n) <==> LongestChain(graph, s, n) {
      MixedIsChain(w, graph, s, nodes[s].stage.value, n);
    }
  }

  lemma MixedIsChain(w: Wiring, graph: Graph, s: Name, k: nat, n: nat)
    requires LongestMixed(w, s, k) && forall p :: MixedFrom(w, s, p) <==> WalkFrom(graph, s, p)
    ensures n == k <==> LongestChain(graph, s, n)
  {
    var q :| MixedFrom(w, s, q) && |q| == k + 1;
    assert WalkFrom(graph, s, q);
    if LongestChain(graph, s, n) {
      var p :| WalkFrom(graph, s, p) && |p| == n + 1;
      assert MixedFrom(w, s, p);
    }
  }

  /** Stages lie between the chains of current dependencies and the chains of edges: none of
      the former is longer, and some of the latter is as long. */
  ghost predicate Between(nodes: Nodes, graph: Graph, s: Name, k: nat) {
    && (forall p :: WalkFrom(Current(nodes), s, p) ==> |p| <= k + 1)
    && (exists p :: WalkFrom(graph, s, p) && |p| == k + 1)
  }

  lemma StageBetween(nodes: Nodes, graph: Graph, order: seq<Name>, s: Name)
    requires StagesAreMixed(nodes, graph, order) && Covers(nodes, graph) && s in nodes
    ensures nodes[s].stage.Some? && Between(nodes, graph, s, nodes[s].stage.value)
  {
    var w := WiringOf(nodes, graph, order);
    CurrentWithin(nodes, graph, order);
    assert LongestMixed(w, s, nodes[s].stage.value);
    forall p | WalkFrom(Current(nodes), s, p) ensures |p| <= nodes[s].stage.value + 1 {
      CurrentIsMixed(w, p);
      assert MixedFrom(w, s, p);
    }
    var p :| MixedFrom(w, s, p) && |p| == nodes[s].stage.value + 1;
    MixedIsWalk(w, p);
  }

  ghost predicate OthersKeepDepths(was: Nodes, nodes: Nodes, graph: Graph) {
    forall s {:trigger LeadsDown(nodes.Keys, graph, s)} ::
      s in nodes && s in was && !LeadsDown(nodes.Keys, graph, s) ==> nodes[s].depth == was[s].depth
  }

  ghost predicate EveryoneMeasured(nodes: Nodes, graph: Graph) {
    forall s {:trigger LeadsDown(nodes.Keys, graph, s)} :: s in nodes ==> LeadsDown(nodes.Keys, graph, s)
  }

  /** Each service with edges has one to a registered service. */
  ghost predicate KeepsRegistered(registered: set<Name>, graph: Graph) {
    forall s :: s in registered && Succ(graph, s) != {} ==> HasSuccessorIn(graph, s, registered)
  }

  lemma MeasuredExactlyWhen(nodes: Nodes, graph: Graph, level: map<Name, nat>)
    requires Levelling(graph, level) && graph.Keys <= nodes.Keys
    ensures EveryoneMeasured(nodes, graph) <==> KeepsRegistered(nodes.Keys, graph)
  {
    if KeepsRegistered(nodes.Keys, graph) {
      forall s | s in nodes ensures LeadsDown(nodes.Keys, graph, s) {
        MeasureOne(nodes, graph, level, s);
      }
    }
    if EveryoneMeasured(nodes, graph) {
      forall s | s in nodes && Succ(graph, s) != {} ensures HasSuccessorIn(graph, s, nodes.Keys) {
        assert LeadsDown(nodes.Keys, graph, s);
        var k: nat :| DownIn(nodes.Keys, graph, s, k);
        if k == 0 { NoWayAtOnce(nodes.Keys, graph, s); }
        var d := DownOneLess(nodes.Keys, graph, s, k);
      }
    }
  }

  lemma {:induction false} MeasureOne(nodes: Nodes, graph: Graph, level: map<Name, nat>, s: Name)
    requires Levelling(graph, level) && KeepsRegistered(nodes.Keys, graph) && s in nodes
    ensures LeadsDown(nodes.Keys, graph, s)
    decreases LevelOf(level, s)
  {
    if Succ(graph, s) == {} {
      DownOnce(nodes.Keys, graph, s);
    } else {
      assert HasSuccessorIn(graph, s, nodes.Keys);
      var d :| d in Succ(graph, s) && d in nodes.Keys;
      MeasureOne(nodes, graph, level, d);
      var k: nat :| DownIn(nodes.Keys, graph, d, k);
      DownOneMore(nodes.Keys, graph, s, d, k);
    }
  }

  /** Without stale edges an accepted validation leaves only edges to registered services:
      fallbacks have replaced the others. */
  lemma AcceptedKeepsRegistered(nodes: Nodes, graph: Graph, graph': Graph)
    requires Exact(nodes, graph) && Accepted(nodes, graph, graph')
    ensures forall s :: s in nodes ==> Succ(graph', s) <= nodes.Keys
    ensures KeepsRegistered(nodes.Keys, graph')
  {
    forall s | s in nodes ensures Succ(graph', s) <= nodes.Keys {
      var deps := nodes[s].dependencies;
      CheckMeaning(deps, 0, Succ(graph, s), nodes.Keys);
      forall n | n in Succ(graph', s) ensures n in nodes {
        if n !in Substitutes(deps, 0, nodes.Keys) {
          var d :| d in deps && d.kind.Required? && d.name == n;
          var j :| 0 <= j < |deps| && deps[j] == d;
          assert !NeedsFallback(deps[j], nodes.Keys);
        }
      }
    }
    forall s | s in nodes.Keys && Succ(graph', s) != {} ensures HasSuccessorIn(graph', s, nodes.Keys) {
      var d :| d in Succ(graph', s);
    }
  }

  /** A pass over nodes that have been stamped with their levels and then measured. */
  lemma PassStagesWell(was: Nodes, measured: Nodes, graph: Graph, order: seq<Name>, level: map<Name, nat>)
    requires graph.Keys <= was.Keys && Levelling(graph, level) && Lists(order, was)
    requires DepthsSet(Levelled(was, level), measured, graph)
    ensures SameServices(was, Pass(measured, order))
    ensures WellStaged(was, Pass(measured, order), graph, Collected(measured, order), order)
  {
    MeasuredAgree(was, measured, graph, level);
    var nodes := Pass(measured, order);
    PassLists(measured, order);
    PassBare(measured, order);
    CollectedInOrder(measured, order);
    MeasuredByPass(was, measured, graph, order, level);
    if Covers(was, graph) { CoveredStages(was, measured, graph, order, level); }
  }

  lemma PassMeasuresWell(was: Nodes, measured: Nodes, graph: Graph, order: seq<Name>, level: map<Name, nat>)
    requires graph.Keys <= was.Keys && Levelling(graph, level) && Lists(order, was)
    requires DepthsSet(Levelled(was, level), measured, graph)
    ensures WellMeasured(was, Pass(measured, order), graph)
  {
    PassLists(measured, order);
    MeasuredRight(Levelled(was, level), measured, Pass(measured, order), graph);
    OthersKept(was, Pass(measured, order), graph, level);
    MeasuredExactlyWhen(Pass(measured, order), graph, level);
  }

  lemma OthersKept(was: Nodes, nodes: Nodes, graph: Graph, level: map<Name, nat>)
    requires OthersKeepDepths(Levelled(was, level), nodes, graph)
    ensures OthersKeepDepths(was, nodes, graph)
  {
  }

  lemma CoveredStages(was: Nodes, measured: Nodes, graph: Graph, order: seq<Name>, level: map<Name, nat>)
    requires graph.Keys <= was.Keys && Levelling(graph, level) && Lists(order, was) && Covers(was, graph)
    requires SameServices(was, measured)
    requires forall s :: s in measured ==> measured[s].stage == Levelled(was, level)[s].stage
    ensures StagesAreMixed(Pass(measured, order), graph, order) && DependenciesEarlier(Pass(measured, order))
    ensures ExactlyRegistered(was, graph) ==> StagesAreChains(Pass(measured, order), graph)
  {
    var nodes := Pass(measured, order);
    PassKeys(measured, order);
    RelationsKept(was, measured, graph);
    RelationsKept(measured, nodes, graph);
    PassRestages(measured, graph, level, order);
    MixedStagesAscend(nodes, graph, order);
    if ExactlyRegistered(was, graph) { StageIsLongestChain(nodes, graph, order); }
  }

  lemma MeasuredAgree(was: Nodes, measured: Nodes, graph: Graph, level: map<Name, nat>)
    requires DepthsSet(Levelled(was, level), measured, graph)
    ensures SameServices(was, measured) && Agree(Levelled(was, level), measured)
    ensures forall s :: s in measured ==> measured[s].stage == Levelled(was, level)[s].stage
  {
  }

  lemma MeasuredByPass(was: Nodes, measured: Nodes, graph: Graph, order: seq<Name>, level: map<Name, nat>)
    requires Levelling(graph, level) && Lists(order, was) && Agree(Levelled(was, level), measured)
    ensures StagedByPass(was, Pass(measured, order), graph, order)
  {
    PassAgrees(Levelled(was, level), measured, order);
    PassAgrees(measured, measured, order);
    assert SameStageNumbers(Pass(Levelled(was, level), order), Pass(measured, order));
  }

  lemma MeasuredRight(was: Nodes, measured: Nodes, nodes: Nodes, graph: Graph)
    requires DepthsSet(was, measured, graph) && OnlyStagesDiffer(measured, nodes)
    ensures DepthsRight(nodes, graph) && OthersKeepDepths(was, nodes, graph)
  {
  }

  /** In an earlier stage, or in the same one and earlier by name. */
  ghost predicate Precedes(nodes: Nodes, a: Name, b: Name) {
    && a in nodes && b in nodes && nodes[a].stage.Some? && nodes[b].stage.Some?
    && (nodes[a].stage.value < nodes[b].stage.value || (nodes[a].stage == nodes[b].stage && Before(a, b)))
  }

  ghost predicate InStageOrder(nodes: Nodes, order: seq<Name>) {
    && NoDuplicates(order) && (forall s :: s in order <==> s in nodes)
    && (forall i, j :: 0 <= i < j < |order| ==> Precedes(nodes, order[i], order[j]))
  }

  ghost predicate Increasing(numbers: seq<nat>) {
    forall i, j :: 0 <= i < j < |numbers| ==> numbers[i] < numbers[j]
  }

  method SortedNumbers(s: set<nat>) returns (numbers: seq<nat>)
    ensures Increasing(numbers) && forall k :: k in numbers <==> k in s
  {
    numbers := [];
    var todo := s;
    while todo != {}
      invariant todo <= s && Increasing(numbers)
      invariant forall k :: k in numbers <==> k in s - todo
      invariant forall i, k :: 0 <= i < |numbers| && k in todo ==> numbers[i] < k
      decreases todo
    {
      var least := Least(todo);
      assert least !in numbers;
      numbers, todo := numbers + [least], todo - {least};
    }
  }

  method Least(s: set<nat>) returns (least: nat)
    requires s != {}
    ensures least in s && forall k :: k in s ==> least <= k
  {
    least :| least in s;
    var todo := s - {least};
    while todo != {}
      invariant todo <= s && least in s && forall k :: k in s && k !in todo ==> least <= k
      decreases todo
    {
      var k :| k in todo;
      todo := todo - {k};
      if k < least { least := k; }
    }
  }

  ghost predicate PartlyOrdered(nodes: Nodes, order: seq<Name>, numbers: seq<nat>) {
    && NoDuplicates(order)
    && (forall s :: s in order <==> s in nodes && nodes[s].stage.Some? && nodes[s].stage.value in numbers)
    && (forall i, j :: 0 <= i < j < |order| ==> Precedes(nodes, order[i], order[j]))
  }

  lemma ConcatenationDistinct(p: seq<Name>, q: seq<Name>)
    requires NoDuplicates(p) && NoDuplicates(q) && forall s :: s in p ==> s !in q
    ensures NoDuplicates(p + q)
  {
    forall i, j | 0 <= i < j < |p + q| ensures (p + q)[i] != (p + q)[j] {
      assert i < |p| ==> (p + q)[i] in p;
      assert j >= |p| ==> (p + q)[j] in q;
    }
  }

  lemma OrderOneStage(nodes: Nodes, stages: Stages, order: seq<Name>, numbers: seq<nat>, i: nat)
    requires StagesList(stages, nodes, nodes.Keys) && Increasing(numbers) && i < |numbers| && numbers[i] in stages
    requires PartlyOrdered(nodes, order, numbers[..i])
    ensures PartlyOrdered(nodes, order + Sorted(stages[numbers[i]]), numbers[..i + 1])
  {
    var k, more := numbers[i], Sorted(stages[numbers[i]]);
    assert numbers[..i + 1] == numbers[..i] + [k];
    SortedAscending(stages[k]);
    forall s ensures s in more <==> s in nodes && nodes[s].stage == Some(k) {
      assert ListedAt(stages, s, k) <==> s in stages[k];
    }
    forall s | s in order ensures s in nodes && nodes[s].stage.Some? && nodes[s].stage.value < k {
      var j :| 0 <= j < |numbers[..i]| && numbers[..i][j] == nodes[s].stage.value;
    }
    ConcatenationDistinct(order, more);
    forall i, j | 0 <= i < j < |order + more| ensures Precedes(nodes, (order + more)[i], (order + more)[j]) {
      assert i < |order| ==> (order + more)[i] in order;
      assert j >= |order| ==> (order + more)[j] in more;
      assert i >= |order| ==> (order + more)[i] in more;
    }
  }

  /** A service's stage is the length of its longest chain of dependencies. */
  ghost predicate StagesAreChains(nodes: Nodes, graph: Graph) {
    forall s, n: nat :: s in nodes ==> (nodes[s].stage == Some(n) <==> LongestChain(graph, s, n))
  }

  lemma RegisteredKeepsCycles(nodes: Nodes, graph: Graph, graph': Graph)
    requires AllRegistered(nodes) && graph.Keys <= nodes.Keys && graph'.Keys <= nodes.Keys
    requires Accepted(nodes, graph, graph')
    ensures Acyclic(graph) <==> Acyclic(graph')
  {
    forall s ensures Succ(graph', s) == Succ(graph, s) {
      if s in nodes { NothingToSubstitute(nodes[s].dependencies, Succ(graph, s), nodes.Keys); }
    }
    SameEdgesSameCycles(graph, graph');
  }

  lemma AfterAcceptance(nodes: Nodes, graph: Graph, graph': Graph)
    requires graph.Keys <= nodes.Keys && graph'.Keys <= nodes.Keys && Accepted(nodes, graph, graph')
    ensures AllRegistered(nodes) ==> (Acyclic(graph) <==> Acyclic(graph'))
    ensures Exact(nodes, graph) ==> KeepsRegistered(nodes.Keys, graph')
  {
    if AllRegistered(nodes) { RegisteredKeepsCycles(nodes, graph, graph'); }
    if Exact(nodes, graph) { AcceptedKeepsRegistered(nodes, graph, graph'); }
  }

  lemma NotAllRegistered(nodes: Nodes, graph: Graph, rejection: Option<Resolution>)
    requires rejection.Some?
    requires RejectedAs(nodes, graph, rejection)
    ensures !AllRegistered(nodes)
  {
    var s :| s in nodes && rejection == Rejection(s, CheckFrom(nodes[s].dependencies, 0, Succ(graph, s), nodes.Keys));
    if forall n :: n in RequiredNames(nodes[s].dependencies) ==> n in nodes {
      NothingToSubstitute(nodes[s].dependencies, Succ(graph, s), nodes.Keys);
      assert false;
    }
  }

  lemma NothingToSubstitute(deps: seq<ServiceDependency>, edges: set<Name>, registered: set<Name>)
    requires forall n :: n in RequiredNames(deps) ==> n in registered
    ensures CheckFrom(deps, 0, edges, registered) == Clear(edges)
  {
    forall j | 0 <= j < |deps| ensures !NeedsFallback(deps[j], registered) {
      assert deps[j].kind.Required? ==> deps[j].name in RequiredNames(deps);
    }
    CheckMeaning(deps, 0, edges, registered);
    assert Unregistered(deps, 0, registered) == {} && Substitutes(deps, 0, registered) == {};
  }

  ghost predicate OnlyStagesDiffer(was: Nodes, nodes: Nodes) {
    nodes.Keys == was.Keys && forall s :: s in nodes ==> nodes[s] == was[s].(stage := nodes[s].stage)
  }

  /** Every service that leads down has the length of its shortest way as depth. */
  ghost predicate DepthsRight(nodes: Nodes, graph: Graph) {
    forall s {:trigger LeadsDown(nodes.Keys, graph, s)} :: s in nodes && LeadsDown(nodes.Keys, graph, s) ==>
      ShortestDown(nodes.Keys, graph, s, nodes[s].depth)
  }

  /** Only depths change: a service that leads down gets the length of its shortest way. */
  ghost predicate DepthsSet(was: Nodes, nodes: Nodes, graph: Graph) {
    nodes.Keys == was.Keys
    && forall s :: s in nodes ==>
         nodes[s] == was[s].(depth := nodes[s].depth)
         && if LeadsDown(was.Keys, graph, s) then ShortestDown(was.Keys, graph, s, nodes[s].depth)
            else nodes[s].depth == was[s].depth
  }

  method SetToSeq(s: set<Name>) returns (p: seq<Name>)
    ensures NoDuplicates(p) && forall v :: v in p <==> v in s
  {
    p := [];
    var todo := s;
    while todo != {}
      invariant todo <= s && NoDuplicates(p)
      invariant forall v :: v in p <==> v in s - todo
      decreases todo
    {
      var v :| v in todo;
      assert v !in p;
      todo := todo - {v};
      p := p + [v];
    }
  }

  function Staged(nodes: Nodes, s: Name, k: nat): Nodes
    requires s in nodes
  {
    nodes[s := nodes[s].(stage := Some(k))]
  }

  function Filed(stages: Stages, s: Name, k: nat): Stages {
    stages[k := (if k in stages then stages[k] else []) + [s]]
  }

  lemma ListOneMore(stages: Stages, nodes: Nodes, done: set<Name>, s: Name, k: nat)
    requires StagesList(stages, nodes, done) && s in nodes && s !in done
    ensures StagesList(Filed(stages, s, k), Staged(nodes, s, k), done + {s})
  {
    var stages' := Filed(stages, s, k);
    forall t, j: nat ensures ListedAt(stages', t, j) <==> ListedAt(stages, t, j) || (t == s && j == k) {
    }
    assert !ListedAt(stages, s, k);
  }

  lemma PassOneMore(nodes: Nodes, order: seq<Name>, i: nat)
    requires i < |order| && order[i] in Pass(nodes, order[..i])
    ensures var before, s := Pass(nodes, order[..i]), order[i];
            var k := NextStage(before, before[s].dependencies);
            Pass(nodes, order[..i + 1]) == Staged(before, s, k)
            && Collected(nodes, order[..i + 1]) == Filed(Collected(nodes, order[..i]), s, k)
  {
    assert order[..i + 1][..i] == order[..i];
  }

  /** A pass changes nothing but stages, and lists each service it has come through once. */
  lemma {:induction false} PassLists(nodes: Nodes, order: seq<Name>)
    requires NoDuplicates(order) && forall s :: s in order ==> s in nodes
    ensures OnlyStagesDiffer(nodes, Pass(nodes, order))
    ensures StagesList(Collected(nodes, order), Pass(nodes, order), Elements(order))
    decreases |order|
  {
    if order != [] {
      var earlier, s := order[..|order| - 1], order[|order| - 1];
      LastApart(order);
      PassLists(nodes, earlier);
      var before := Pass(nodes, earlier);
      ListOneMore(Collected(nodes, earlier), before, Elements(earlier), s, NextStage(before, before[s].dependencies));
    }
  }

  /** Each stage lists its services in the order of the pass. */
  lemma {:induction false} CollectedInOrder(nodes: Nodes, order: seq<Name>)
    requires NoDuplicates(order) && forall s :: s in order ==> s in nodes
    ensures ListedInOrder(Collected(nodes, order), order)
    decreases |order|
  {
    if order != [] {
      var earlier, s := order[..|order| - 1], order[|order| - 1];
      LastApart(order);
      CollectedInOrder(nodes, earlier);
      PassLists(nodes, earlier);
      var listed := Collected(nodes, earlier);
      forall k | k in listed ensures InOrder(listed[k], order) && InOrder(listed[k] + [s], order) {
        InLongerOrder(listed[k], earlier, s);
        forall v | v in listed[k] ensures v in earlier { assert ListedAt(listed, v, k); }
        InOrderOneMore(listed[k], order, |earlier|);
      }
    }
  }

  ghost predicate ListedInOrder(stages: Stages, order: seq<Name>) {
    forall k :: k in stages ==> InOrder(stages[k], order)
  }

  /** A service is restaged once: before, it keeps the stage it had, and afterwards the new
      one. */
  lemma {:induction false} PassKeeps(nodes: Nodes, order: seq<Name>, i: nat, n: Name)
    requires i <= |order| && n !in order[i..] && n in nodes && forall s :: s in order ==> s in nodes
    ensures n in Pass(nodes, order) && n in Pass(nodes, order[..i])
    ensures Pass(nodes, order)[n] == Pass(nodes, order[..i])[n]
    decreases |order|
  {
    if i == |order| {
      assert order[..i] == order;
      PassKeys(nodes, order);
    } else {
      var earlier := order[..|order| - 1];
      assert order[i..] == earlier[i..] + [order[|order| - 1]] && earlier[..i] == order[..i];
      PassKeys(nodes, earlier);
      PassKeeps(nodes, earlier, i, n);
    }
  }

  lemma {:induction false} PassKeys(nodes: Nodes, order: seq<Name>)
    ensures SameServices(nodes, Pass(nodes, order))
    decreases |order|
  {
    if order != [] { PassKeys(nodes, order[..|order| - 1]); }
  }

  /** The stage that a pass gives to `s`: the one after its dependencies', as they stood when
      its turn came. */
  lemma PassValue(nodes: Nodes, order: seq<Name>, s: Name)
    requires NoDuplicates(order) && s in order && forall n :: n in order ==> n in nodes
    ensures var before, after := Pass(nodes, order[..IndexOf(order, s)]), Pass(nodes, order);
            && SameServices(nodes, before) && SameServices(nodes, after)
            && after[s].stage == Some(NextStage(before, nodes[s].dependencies))
  {
    var i := IndexOf(order, s);
    PassKeys(nodes, order[..i]);
    PassKeys(nodes, order);
    PassOneMore(nodes, order, i);
    forall j | i + 1 <= j < |order| ensures order[j] != s { }
    assert s !in order[i + 1..];
    PassKeeps(nodes, order, i + 1, s);
  }

  lemma SeenBefore(nodes: Nodes, order: seq<Name>, s: Name, n: Name)
    requires NoDuplicates(order) && s in order && n in order && forall m :: m in order ==> m in nodes
    ensures n in Pass(nodes, order[..IndexOf(order, s)]) && n in Pass(nodes, order)
    ensures Pass(nodes, order[..IndexOf(order, s)])[n].stage
         == if RegisteredBefore(order, n, s) then Pass(nodes, order)[n].stage else nodes[n].stage
  {
    var i, j := IndexOf(order, s), IndexOf(order, n);
    PassKeys(nodes, order);
    if j < i {
      forall k | i <= k < |order| ensures order[k] != n { }
      assert n !in order[i..];
      PassKeeps(nodes, order, i, n);
    } else {
      forall k | 0 <= k < i ensures order[k] != n { }
      assert n !in order[..i] && order[..i][0..] == order[..i] && order[..i][..0] == [];
      PassKeeps(nodes, order[..i], 0, n);
    }
  }

  lemma PassBare(nodes: Nodes, order: seq<Name>)
    requires Lists(order, nodes)
    ensures BareFirst(Pass(nodes, order))
  {
    PassKeys(nodes, order);
    forall s | s in Pass(nodes, order) && Bare(Pass(nodes, order), s) ensures Pass(nodes, order)[s].stage == Some(0) {
      assert s in Elements(order);
      PassValue(nodes, order, s);
      NextStageIsAfter(Pass(nodes, order[..IndexOf(order, s)]), nodes[s].dependencies);
    }
  }

  function StageMap(nodes: Nodes): map<Name, nat> {
    map s | s in nodes && nodes[s].stage.Some? :: nodes[s].stage.value
  }

  /** A pass in any order over stamped nodes, with edges for all registered dependencies:
      each service ends at the length of its longest mixed chain for that order. */
  lemma PassRestages(was: Nodes, graph: Graph, level: map<Name, nat>, order: seq<Name>)
    requires Levelling(graph, level) && Lists(order, was) && Covers(was, graph)
    requires forall s :: s in was && s in level ==> was[s].stage == Some(level[s])
    ensures StagesAreMixed(Pass(was, order), graph, order)
  {
    var nodes := Pass(was, order);
    var w, stage := WiringOf(nodes, graph, order), StageMap(nodes);
    PassGrounded(was, graph, level, order);
    forall s {:trigger OneAbove(w, level, stage, s)} | s in stage ensures OneAbove(w, level, stage, s) {
      PassOneAbove(was, graph, level, order, s);
    }
    forall s | s in nodes ensures LongestMixed(w, s, nodes[s].stage.value) {
      StageIsLongestMixed(w, level, stage, s);
    }
  }

  lemma PassGrounded(was: Nodes, graph: Graph, level: map<Name, nat>, order: seq<Name>)
    requires Levelling(graph, level) && Lists(order, was) && Covers(was, graph)
    ensures forall s :: s in Pass(was, order) ==> Pass(was, order)[s].stage.Some?
    ensures Grounded(WiringOf(Pass(was, order), graph, order), level, StageMap(Pass(was, order)))
  {
    var nodes := Pass(was, order);
    PassKeys(was, order);
    forall s | s in nodes ensures nodes[s].stage.Some? {
      assert s in Elements(order);
      PassValue(was, order, s);
    }
    forall s, n | n in Succ(Current(nodes), s) ensures n in StageMap(nodes) && n in level {
      assert n in Succ(graph, s) && n in Vertices(graph);
    }
  }

  lemma PassOneAbove(was: Nodes, graph: Graph, level: map<Name, nat>, order: seq<Name>, s: Name)
    requires Levelling(graph, level) && Lists(order, was) && Covers(was, graph)
    requires forall s :: s in was && s in level ==> was[s].stage == Some(level[s])
    requires s in StageMap(Pass(was, order))
    ensures OneAbove(WiringOf(Pass(was, order), graph, order), level, StageMap(Pass(was, order)), s)
  {
    var nodes := Pass(was, order);
    var w, stage := WiringOf(nodes, graph, order), StageMap(nodes);
    PassKeys(was, order);
    assert s in Elements(order);
    PassValue(was, order, s);
    NextStageIsAfter(Pass(was, order[..IndexOf(order, s)]), was[s].dependencies);
    forall n, k: int {:trigger Counts(w, level, stage, s, n, k)} | Counts(w, level, stage, s, n, k)
      ensures k < stage[s]
    {
      assert n in nodes && n in was && n in RequiredNames(was[s].dependencies);
      WorthSeen(was, graph, level, order, s, n);
    }
    if stage[s] > 0 { HighestCounts(was, graph, level, order, s); }
  }

  lemma HighestCounts(was: Nodes, graph: Graph, level: map<Name, nat>, order: seq<Name>, s: Name)
    requires Levelling(graph, level) && Lists(order, was) && Covers(was, graph)
    requires forall s :: s in was && s in level ==> was[s].stage == Some(level[s])
    requires s in was && s in StageMap(Pass(was, order)) && StageMap(Pass(was, order))[s] > 0
    requires var before, stage := Pass(was, order[..IndexOf(order, s)]), StageMap(Pass(was, order));
             SameServices(was, before) && StageAfter(before, RequiredNames(was[s].dependencies), stage[s])
    ensures var stage := StageMap(Pass(was, order));
            SomeCounts(WiringOf(Pass(was, order), graph, order), level, stage, s, stage[s] - 1)
  {
    var stage := StageMap(Pass(was, order));
    var before := Pass(was, order[..IndexOf(order, s)]);
    var n :| n in RequiredNames(was[s].dependencies) && n in before && before[n].stage == Some((stage[s] - 1) as nat);
    WorthSeen(was, graph, level, order, s, n);
    assert Counts(WiringOf(Pass(was, order), graph, order), level, stage, s, n, stage[s] - 1);
  }

  /** A registered dependency of `s` has, when the turn of `s` comes, the stage it is worth. */
  lemma WorthSeen(was: Nodes, graph: Graph, level: map<Name, nat>, order: seq<Name>, s: Name, n: Name)
    requires Levelling(graph, level) && Lists(order, was) && Covers(was, graph)
    requires forall s :: s in was && s in level ==> was[s].stage == Some(level[s])
    requires s in was && n in was && n in RequiredNames(was[s].dependencies)
    ensures var nodes, before := Pass(was, order), Pass(was, order[..IndexOf(order, s)]);
            var w, stage := WiringOf(nodes, graph, order), StageMap(nodes);
            && n in Succ(w.current, s) && n in stage && n in level && n in before
            && before[n].stage == Some(Worth(w, level, stage, s, n))
  {
    PassKeys(was, order);
    assert s in Elements(order) && n in Elements(order);
    assert n in Succ(graph, s) && n in Vertices(graph);
    PassValue(was, order, n);
    SeenBefore(was, order, s, n);
  }

  // ---------------------------------------------------------------- stamping

  function StampBatch(nodes: Nodes, batch: set<Name>, k: nat): Nodes {
    map s | s in nodes :: if s in batch then nodes[s].(stage := Some(k)) else nodes[s]
  }

  function StampAll(nodes: Nodes, batches: seq<set<Name>>): Nodes
    decreases |batches|
  {
    if batches == [] then nodes
    else StampBatch(StampAll(nodes, batches[..|batches| - 1]), batches[|batches| - 1], |batches| - 1)
  }

  lemma StampOneMore(nodes: Nodes, batches: seq<set<Name>>, k: nat)
    requires k < |batches|
    ensures StampAll(nodes, batches[..k + 1]) == StampBatch(StampAll(nodes, batches[..k]), batches[k], k)
  {
    assert batches[..k + 1][..k] == batches[..k];
  }

  lemma {:induction false} StampedUpTo(nodes: Nodes, batches: seq<set<Name>>, level: map<Name, nat>, k: nat)
    requires k <= |batches| && Sorter.ByLevel(batches, level)
    ensures StampAll(nodes, batches[..k])
         == map s | s in nodes ::
              nodes[s].(stage := if s in level && level[s] < k then Some(level[s]) else nodes[s].stage)
  {
    if k > 0 {
      StampedUpTo(nodes, batches, level, k - 1);
      StampOneMore(nodes, batches, k - 1);
      assert forall s :: s in batches[k - 1] <==> s in level && level[s] == k - 1;
    }
  }

  lemma StampedByLevel(nodes: Nodes, batches: seq<set<Name>>, level: map<Name, nat>)
    requires Sorter.ByLevel(batches, level)
    ensures StampAll(nodes, batches) == Levelled(nodes, level)
  {
    StampedUpTo(nodes, batches, level, |batches|);
    assert batches[..|batches|] == batches;
  }

  ghost predicate ListsBatches(stages: Stages, batches: seq<set<Name>>, n: nat)
    requires n <= |batches|
  {
    forall k :: 0 <= k < n ==> k in stages && NoDuplicates(stages[k]) && forall s :: s in stages[k] <==> s in batches[k]
  }

  /** The interim stage lists: each level's vertices, each once. */
  ghost predicate ListsLevels(stages: Stages, level: map<Name, nat>) {
    && (forall s, v :: v in level ==> (ListedAt(stages, s, level[v]) <==> s in level && level[s] == level[v]))
    && (forall v :: v in level ==> level[v] in stages && NoDuplicates(stages[level[v]]))
  }

  lemma ListedByLevel(stages: Stages, batches: seq<set<Name>>, level: map<Name, nat>)
    requires Sorter.ByLevel(batches, level) && ListsBatches(stages, batches, |batches|)
    ensures ListsLevels(stages, level)
  {
  }

  /** None of the service's Required dependencies is registered. */
  ghost predicate Bare(nodes: Nodes, s: Name)
    requires s in nodes
  {
    forall n :: n in RequiredNames(nodes[s].dependencies) ==> n !in nodes
  }

  ghost predicate ExactlyRegistered(nodes: Nodes, graph: Graph) {
    Exact(nodes, graph) && AllRegistered(nodes)
  }

  lemma RelationsKept(nodes: Nodes, nodes': Nodes, graph: Graph)
    requires SameServices(nodes, nodes')
    ensures Covers(nodes, graph) ==> Covers(nodes', graph)
    ensures ExactlyRegistered(nodes, graph) ==> ExactlyRegistered(nodes', graph)
  {
  }

  lemma RequiredNamesStep(deps: seq<ServiceDependency>, i: nat)
    requires i < |deps|
    ensures RequiredNames(deps[..i + 1])
         == RequiredNames(deps[..i]) + if deps[i].kind.Required? then {deps[i].name} else {}
  {
    assert deps[..i + 1] == deps[..i] + [deps[i]];
  }

  // ---------------------------------------------------------------- consequences

  /** In a start-up order every registered Required dependency precedes its dependent. */
  lemma DependenciesFirst(nodes: Nodes, order: seq<Name>, s: Name, n: Name) returns (i: nat, j: nat)
    requires InStageOrder(nodes, order) && DependenciesEarlier(nodes)
    requires s in nodes && n in RequiredNames(nodes[s].dependencies) && n in nodes
    ensures i < j < |order| && order[i] == n && order[j] == s
  {
    i :| 0 <= i < |order| && order[i] == n;
    j :| 0 <= j < |order| && order[j] == s;
  }

  /** There is only one start-up order for given stages. */
  lemma {:induction false} OrderDetermined(nodes: Nodes, one: seq<Name>, two: seq<Name>, i: nat)
    requires InStageOrder(nodes, one) && InStageOrder(nodes, two) && i <= |one| && i <= |two|
    ensures one[..i] == two[..i] && (i == |one| <==> i == |two|)
  {
    if i > 0 {
      OrderDetermined(nodes, one, two, i - 1);
      SameNext(nodes, one, two, i - 1);
      assert one[..i] == one[..i - 1] + [one[i - 1]] && two[..i] == two[..i - 1] + [two[i - 1]];
    }
    forall m | 0 <= m < i ensures one[m] == two[m] { assert one[..i][m] == two[..i][m]; }
    assert i < |two| ==> two[i] in one;
    assert i < |one| ==> one[i] in two;
  }

  lemma SameNext(nodes: Nodes, one: seq<Name>, two: seq<Name>, i: nat)
    requires InStageOrder(nodes, one) && InStageOrder(nodes, two) && i < |one| && i < |two| && one[..i] == two[..i]
    ensures one[i] == two[i]
  {
    assert one[i] !in one[..i] && two[i] !in two[..i];
    var j := LaterIndex(two, one[i], i);
    var k := LaterIndex(one, two[i], i);
    if j > i && k > i {
      assert Precedes(nodes, two[i], two[j]) && Precedes(nodes, one[i], one[k]);
      BeforeIsOrder(one[i], two[i]);
    }
  }

  lemma LaterIndex(p: seq<Name>, x: Name, i: nat) returns (j: nat)
    requires i <= |p| && x in p && x !in p[..i]
    ensures i <= j < |p| && p[j] == x
  {
    assert p == p[..i] + p[i..];
    var m :| 0 <= m < |p[i..]| && p[i..][m] == x;
    j := i + m;
  }

  /** The stages are the longest chains of current dependencies if and only if no current
      dependency that was registered after its dependent leads to a chain of edges with which
      the dependent's longest current chain could not keep up. */
  lemma CurrentChainsExactlyWhen(nodes: Nodes, graph: Graph, order: seq<Name>)
    requires StagesAreMixed(nodes, graph, order) && Covers(nodes, graph)
    ensures StagesAreChains(nodes, Current(nodes)) <==> LateHarmless(WiringOf(nodes, graph, order))
  {
    var w := WiringOf(nodes, graph, order);
    CurrentWithin(nodes, graph, order);
    MatchedExactlyWhen(w);
    if LateHarmless(w) {
      forall s, n: nat | s in nodes ensures nodes[s].stage == Some(n) <==> LongestChain(w.current, s, n) {
        MatchedIsChain(w, s, nodes[s].stage.value, n);
      }
    }
    if StagesAreChains(nodes, w.current) {
      forall s, p | MixedFrom(w, s, p) ensures KeepsUp(w, s, |p| - 1) { ChainMatches(nodes, w, s, p); }
    }
  }

  lemma MatchedIsChain(w: Wiring, s: Name, k: nat, n: nat)
    requires Within(w) && LongestMixed(w, s, k) && forall p :: MixedFrom(w, s, p) ==> KeepsUp(w, s, |p| - 1)
    ensures n == k <==> LongestChain(w.current, s, n)
  {
    var q :| MixedFrom(w, s, q) && |q| == k + 1;
    assert KeepsUp(w, s, k);
    var r :| WalkFrom(w.current, s, r) && |r| > k;
    forall p | WalkFrom(w.current, s, p) ensures |p| <= k + 1 {
      CurrentIsMixed(w, p);
      assert MixedFrom(w, s, p);
    }
  }

  lemma ChainMatches(nodes: Nodes, w: Wiring, s: Name, p: seq<Name>)
    requires StagesAreChains(nodes, w.current) && w.current == Current(nodes) && MixedFrom(w, s, p)
    requires forall s :: s in nodes ==> nodes[s].stage.Some? && LongestMixed(w, s, nodes[s].stage.value)
    ensures KeepsUp(w, s, |p| - 1)
  {
    if s in nodes {
      var k := nodes[s].stage.value;
      assert nodes[s].stage == Some(k) && LongestChain(w.current, s, k);
      var r :| WalkFrom(w.current, s, r) && |r| == k + 1;
    } else {
      assert |p| == 1 && WalkFrom(w.current, s, [s]);
    }
  }

  /** Both have a stage, and the first one's is earlier. */
  ghost predicate Sooner(nodes: Nodes, a: Name, b: Name) {
    && a in nodes && b in nodes && nodes[a].stage.Some? && nodes[b].stage.Some?
    && nodes[a].stage.value < nodes[b].stage.value
  }

  /** Each edge between registered services leads to an earlier stage. */
  ghost predicate EdgesEarlier(nodes: Nodes, graph: Graph) {
    forall s, n :: n in Succ(graph, s) && n in nodes ==> Sooner(nodes, n, s)
  }

  /** Whatever a registered service impacts sits in a strictly later stage. */
  ghost predicate ImpactedLater(nodes: Nodes, reverse: Graph) {
    forall f, s :: f in nodes && Reaches(reverse, f, s) ==> Sooner(nodes, f, s)
  }

  lemma {:induction false} ImpactedAlong(nodes: Nodes, graph: Graph, reverse: Graph, failed: Name, p: seq<Name>)
    requires EdgesEarlier(nodes, graph) && graph.Keys <= nodes.Keys && Transposed(graph, reverse)
    requires failed in nodes && Walk(reverse, p) && |p| > 1 && p[0] == failed
    ensures Sooner(nodes, failed, p[|p| - 1])
    decreases |p|
  {
    var u, v := p[|p| - 2], p[|p| - 1];
    assert p[(|p| - 2) + 1] in Succ(reverse, p[|p| - 2]);
    assert u in Succ(graph, v);
    if |p| > 2 {
      WalkSlice(reverse, p, 0, |p| - 1);
      ImpactedAlong(nodes, graph, reverse, failed, p[0..|p| - 1]);
    }
  }

  lemma ImpactedLaterByEdges(nodes: Nodes, graph: Graph, reverse: Graph)
    requires graph.Keys <= nodes.Keys && Transposed(graph, reverse)
    ensures ImpactedLater(nodes, reverse) <==> EdgesEarlier(nodes, graph)
  {
    if EdgesEarlier(nodes, graph) {
      forall f, s | f in nodes && Reaches(reverse, f, s) ensures Sooner(nodes, f, s) {
        var p :| WalkBetween(reverse, f, s, p) && |p| > 1;
        ImpactedAlong(nodes, graph, reverse, f, p);
      }
    }
    if ImpactedLater(nodes, reverse) {
      forall s, n | n in Succ(graph, s) && n in nodes ensures Sooner(nodes, n, s) {
        ReachesStep(reverse, n, s);
      }
    }
  }

  /** Where an edge that is no current dependency leads to a registered service, some mixed
      chain from its source is longer than every one from its target. */
  ghost predicate StaleHarmless(nodes: Nodes, graph: Graph, order: seq<Name>) {
    forall s, n :: n in Succ(graph, s) && n in nodes && n !in Succ(Current(nodes), s) ==>
      LongerFrom(WiringOf(nodes, graph, order), s, n)
  }

  /** Everything impacted by a registered service sits later if and only if the edges that
      are no current dependencies are harmless in that sense. */
  lemma ImpactedLaterExactlyWhen(nodes: Nodes, graph: Graph, reverse: Graph, order: seq<Name>)
    requires StagesAreMixed(nodes, graph, order) && Covers(nodes, graph)
    requires graph.Keys <= nodes.Keys && Transposed(graph, reverse)
    ensures ImpactedLater(nodes, reverse) <==> StaleHarmless(nodes, graph, order)
  {
    var w := WiringOf(nodes, graph, order);
    ImpactedLaterByEdges(nodes, graph, reverse);
    MixedStagesAscend(nodes, graph, order);
    forall s, n | n in Succ(graph, s) && n in nodes
      ensures s in nodes && (Sooner(nodes, n, s) <==> LongerFrom(w, s, n))
    {
      assert s in graph.Keys;
      LongerMeans(w, s, nodes[s].stage.value, n, nodes[n].stage.value);
    }
    forall s, n | n in Succ(w.current, s) ensures Sooner(nodes, n, s) { }
  }

  /** When the edges are exactly the registered dependencies, it does. */
  lemma ImpactedLaterWhenExact(nodes: Nodes, graph: Graph, reverse: Graph)
    requires ExactlyRegistered(nodes, graph) && DependenciesEarlier(nodes)
    requires graph.Keys <= nodes.Keys && Transposed(graph, reverse)
    ensures ImpactedLater(nodes, reverse)
  {
    ImpactedLaterByEdges(nodes, graph, reverse);
  }

  /** A service is never deeper than its stage: its shortest chain to a dependency-free
      service is no longer than its longest one. */
  lemma DepthWithinStage(nodes: Nodes, graph: Graph, s: Name)
    requires ExactlyRegistered(nodes, graph) && StagesAreChains(nodes, graph) && DepthsRight(nodes, graph)
    requires graph.Keys <= nodes.Keys && s in nodes && nodes[s].stage.Some?
    ensures ShortestDown(nodes.Keys, graph, s, nodes[s].depth) && nodes[s].depth <= nodes[s].stage.value
  {
    var k := nodes[s].stage.value;
    assert LongestChain(graph, s, k);
    var p :| WalkFrom(graph, s, p) && |p| == k + 1;
    var last := p[k];
    if v :| v in Succ(graph, last) {
      WalkAppend(graph, p, v);
      assert WalkFrom(graph, s, p + [v]);
      assert false;
    }
    assert last in nodes by {
      if k > 0 { assert p[(k - 1) + 1] in Succ(graph, p[k - 1]); }
    }
    assert DownAlong(nodes.Keys, graph, s, p);
    assert DownIn(nodes.Keys, graph, s, k) && LeadsDown(nodes.Keys, graph, s);
  }

  /** Stages depend on nothing but the current dependencies, the edges and the order of
      registration: two resolutions list the same services under the same numbers. */
  lemma StagesDetermined(a: Nodes, b: Nodes, graph: Graph, order: seq<Name>, stagesA: Stages, stagesB: Stages)
    requires SameServices(a, b) && StagesAreMixed(a, graph, order) && StagesAreMixed(b, graph, order)
    requires StagesList(stagesA, a, a.Keys) && StagesList(stagesB, b, b.Keys)
    ensures forall k: nat, s :: ListedAt(stagesA, s, k) <==> ListedAt(stagesB, s, k)
  {
    forall s | s in a ensures a[s].stage == b[s].stage { SameStage(a, b, graph, order, s); }
    forall k: nat, s ensures ListedAt(stagesA, s, k) <==> ListedAt(stagesB, s, k) {
      assert s in a.Keys ==> ListedAt(stagesA, s, a[s].stage.value) && ListedAt(stagesB, s, b[s].stage.value);
    }
  }

  lemma SameStage(a: Nodes, b: Nodes, graph: Graph, order: seq<Name>, s: Name)
    requires SameServices(a, b) && StagesAreMixed(a, graph, order) && StagesAreMixed(b, graph, order) && s in a
    ensures a[s].stage == b[s].stage
  {
    SameCurrent(a, b);
    var w := WiringOf(a, graph, order);
    assert s in b;
    OneLongest(w, s, a[s].stage.value, b[s].stage.value);
  }

  lemma SameCurrent(a: Nodes, b: Nodes)
    requires SameServices(a, b)
    ensures Current(a) == Current(b)
  {
  }

  lemma {:induction false} MissingMeans(deps: seq<ServiceDependency>, i: nat, edges: set<Name>, registered: set<Name>)
    requires i <= |deps| && CheckFrom(deps, i, edges, registered).Missing?
    ensures !Substitutable(deps, i, registered)
    decreases |deps| - i
  {
    var d := deps[i];
    if NeedsFallback(d, registered) {
      if UsableFallback(d, registered) { MissingMeans(deps, i + 1, edges - {d.name} + {d.fallback.value}, registered); }
    } else {
      MissingMeans(deps, i + 1, edges, registered);
    }
  }

  /** After a first validation has accepted a service, a second one accepts it if and only
      if nothing was substituted, and otherwise stops at an edge that is gone. */
  lemma SecondCheck(deps: seq<ServiceDependency>, edges: set<Name>, edges': set<Name>, registered: set<Name>)
    requires CheckFrom(deps, 0, edges, registered) == Clear(edges')
    ensures if RequiredNames(deps) <= registered
            then edges' == edges && CheckFrom(deps, 0, edges', registered) == Clear(edges)
            else CheckFrom(deps, 0, edges', registered).EdgeGone?
  {
    if RequiredNames(deps) <= registered {
      NothingToSubstitute(deps, edges, registered);
    } else {
      SecondValidationFails(deps, edges, registered);
      CheckMeaning(deps, 0, edges, registered);
      if CheckFrom(deps, 0, edges', registered).Missing? { MissingMeans(deps, 0, edges', registered); }
    }
  }
}
