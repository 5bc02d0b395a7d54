/** What becomes of a resolver over a history of registrations and resolutions. */
module Histories {
  import opened Services
  import opened Names
  import opened Graphs
  import opened Resolver
  import opened Chains

  ghost predicate SameStages(a: Stages, b: Stages) {
    forall s, k: nat :: ListedAt(a, s, k) <==> ListedAt(b, s, k)
  }

  // ---------------------------------------------------------------- resolving twice

  /** Resolving twice. The second resolution succeeds if and only if the first one had
      nothing to substitute, and otherwise stops at an edge that is gone. When it succeeds
      it stages every service as before, stale edges or not: both go through the services
      in registration order, over the same edges. */
  method ResolveTwice(resolver: ServiceDependencyResolver) returns (one: Resolution, two: Resolution)
    requires resolver.Valid()
    modifies resolver
    ensures one.Resolved? ==> if AllRegistered(old(resolver.nodes)) then two.Resolved? else two.EdgeAlreadyGone?
    ensures one.Resolved? && two.Resolved? && old(Covers(resolver.nodes, resolver.graph)) ==>
              SameStages(one.stages, two.stages)
  {
    ghost var nodes0, graph0 := resolver.nodes, resolver.graph;
    one := resolver.ResolveDependencies();
    if !one.Resolved? { return one, one; }
    two := ResolveAgain(resolver, nodes0, graph0, one.stages);
  }

  /** A resolution after a successful one. If it succeeds, it repeats the stages if and only if
      the nodes it starts from are steady for the edges and the order. */
  method ResolveAgain(resolver: ServiceDependencyResolver, ghost nodes0: Nodes, ghost graph0: Graph,
                      ghost stages: Stages)
    returns (two: Resolution)
    requires resolver.Valid() && SameServices(nodes0, resolver.nodes) && Accepted(nodes0, graph0, resolver.graph)
    requires Acyclic(resolver.graph)
    requires WellStaged(nodes0, resolver.nodes, resolver.graph, stages, resolver.order)
    modifies resolver
    ensures if AllRegistered(nodes0) then two.Resolved? else two.EdgeAlreadyGone?
    ensures two.Resolved? && Covers(nodes0, graph0) ==> SameStages(stages, two.stages)
    ensures two.Resolved? ==>
              (SameStages(stages, two.stages) <==> Steady(old(resolver.nodes), old(resolver.graph), resolver.order))
  {
    ghost var nodes1, graph1, order := resolver.nodes, resolver.graph, resolver.order;
    two := resolver.ResolveDependencies();
    Repeated(nodes0, graph0, nodes1, graph1, stages, resolver.nodes, resolver.graph, two, order);
  }

  /** What a second resolution comes to after a first one that succeeded. */
  lemma Repeated(nodes0: Nodes, graph0: Graph, nodes1: Nodes, graph1: Graph, stages1: Stages,
                 nodes2: Nodes, graph2: Graph, two: Resolution, order: seq<Name>)
    requires Lists(order, nodes1) && SameServices(nodes0, nodes1) && Accepted(nodes0, graph0, graph1)
    requires SameServices(nodes1, nodes2) && graph1.Keys == graph2.Keys && graph1.Keys <= nodes1.Keys
    requires two.Resolved? <==> Accepted(nodes1, graph1, graph2) && Acyclic(graph2)
    requires if two.MissingRequired? || two.EdgeAlreadyGone?
             then RejectedAs(nodes1, graph1, Some(two)) else Accepted(nodes1, graph1, graph2)
    requires AllRegistered(nodes1) ==> (two.Resolved? <==> Acyclic(graph1))
    requires Acyclic(graph1) && WellStaged(nodes0, nodes1, graph1, stages1, order)
    requires two.Resolved? ==> WellStaged(nodes1, nodes2, graph2, two.stages, order)
    ensures if AllRegistered(nodes0) then two.Resolved? else two.EdgeAlreadyGone?
    ensures two.Resolved? && Covers(nodes0, graph0) ==> SameStages(stages1, two.stages)
    ensures two.Resolved? ==> (SameStages(stages1, two.stages) <==> Steady(nodes1, graph1, order))
  {
    AfterOne(nodes0, graph0, nodes1, graph1);
    if !AllRegistered(nodes0) {
      SecondFails(nodes1, graph1, graph2, two);
    } else {
      SecondGraph(nodes1, graph1, graph2);
      SteadyExactlyWhen(nodes1, nodes2, graph1, order, stages1, two.stages);
      if Covers(nodes0, graph0) {
        SecondPass(nodes0, nodes1, graph1, stages1, nodes2, graph2, two.stages, order);
      }
    }
  }

  /** The nodes as a pass from `nodes` sees them when the turn of `s` comes, if nothing before
      has changed: vertices registered later are at their level. */
  function SeenAt(nodes: Nodes, level: map<Name, nat>, order: seq<Name>, s: Name): Nodes {
    map n | n in nodes ::
      nodes[n].(stage := if RegisteredBefore(order, n, s) || n !in level then nodes[n].stage else Some(level[n]))
  }

  ghost predicate SteadyAt(nodes: Nodes, level: map<Name, nat>, order: seq<Name>, s: Name)
    requires s in nodes
  {
    nodes[s].stage == Some(NextStage(SeenAt(nodes, level, order, s), nodes[s].dependencies))
  }

  ghost predicate SteadyEverywhere(nodes: Nodes, level: map<Name, nat>, order: seq<Name>) {
    forall s {:trigger SteadyAt(nodes, level, order, s)} :: s in nodes ==> SteadyAt(nodes, level, order, s)
  }

  /** Every stage is already the one after the dependencies' as the next pass will see them. */
  ghost predicate Steady(nodes: Nodes, graph: Graph, order: seq<Name>) {
    exists level :: Levelling(graph, level) && SteadyEverywhere(nodes, level, order)
  }

  /** What the pass sees is that, as long as it has repeated the stages before. */
  lemma SeenByPass(nodes: Nodes, level: map<Name, nat>, order: seq<Name>, s: Name)
    requires Lists(order, nodes) && s in nodes
    requires var after := Pass(Levelled(nodes, level), order);
             forall n :: n in nodes && RegisteredBefore(order, n, s) ==> n in after && after[n].stage == nodes[n].stage
    ensures s in Pass(Levelled(nodes, level), order)
    ensures Pass(Levelled(nodes, level), order)[s].stage
         == Some(NextStage(SeenAt(nodes, level, order, s), nodes[s].dependencies))
  {
    var start := Levelled(nodes, level);
    assert s in Elements(order) && forall n :: n in order ==> n in Elements(order);
    PassValue(start, order, s);
    var before := Pass(start, order[..IndexOf(order, s)]);
    forall n | n in nodes ensures before[n].stage == SeenAt(nodes, level, order, s)[n].stage {
      assert n in Elements(order);
      SeenBefore(start, order, s, n);
    }
    NextStageAgrees(before, SeenAt(nodes, level, order, s), nodes[s].dependencies);
  }

  lemma {:induction false} SteadyRepeats(nodes: Nodes, level: map<Name, nat>, order: seq<Name>, s: Name)
    requires Lists(order, nodes) && SteadyEverywhere(nodes, level, order) && s in nodes && s in order
    ensures s in Pass(Levelled(nodes, level), order)
    ensures Pass(Levelled(nodes, level), order)[s].stage == nodes[s].stage
    decreases IndexOf(order, s)
  {
    forall n | n in nodes && RegisteredBefore(order, n, s)
      ensures n in Pass(Levelled(nodes, level), order)
      ensures Pass(Levelled(nodes, level), order)[n].stage == nodes[n].stage
    {
      SteadyRepeats(nodes, level, order, n);
    }
    SeenByPass(nodes, level, order, s);
    assert SteadyAt(nodes, level, order, s);
  }

  lemma RepeatedExactlyWhen(nodes: Nodes, level: map<Name, nat>, order: seq<Name>)
    requires Lists(order, nodes)
    ensures SameStageNumbers(Pass(Levelled(nodes, level), order), nodes) <==> SteadyEverywhere(nodes, level, order)
  {
    if SteadyEverywhere(nodes, level, order) {
      forall s | s in nodes
        ensures s in Pass(Levelled(nodes, level), order)
        ensures Pass(Levelled(nodes, level), order)[s].stage == nodes[s].stage
      {
        assert s in Elements(order);
        SteadyRepeats(nodes, level, order, s);
      }
    }
    if SameStageNumbers(Pass(Levelled(nodes, level), order), nodes) {
      forall s {:trigger SteadyAt(nodes, level, order, s)} | s in nodes ensures SteadyAt(nodes, level, order, s) {
        SeenByPass(nodes, level, order, s);
      }
    }
  }

  lemma OneLevelling(g: Graph, a: map<Name, nat>, b: map<Name, nat>)
    requires Levelling(g, a) && Levelling(g, b)
    ensures a == b
  {
    forall v | v in a ensures a[v] == b[v] {
      LevelIsLongestChain(g, a, v);
      LevelIsLongestChain(g, b, v);
      assert LongestChain(g, v, a[v]);
    }
  }

  /** Over the same graph and order, a resolution that starts from `nodes1` repeats their
      stages if and only if they are steady. */
  lemma SteadyExactlyWhen(nodes1: Nodes, nodes2: Nodes, graph: Graph, order: seq<Name>,
                          stages1: Stages, stages2: Stages)
    requires SameServices(nodes1, nodes2) && Lists(order, nodes1) && StagedByPass(nodes1, nodes2, graph, order)
    requires StagesList(stages1, nodes1, nodes1.Keys) && StagesList(stages2, nodes2, nodes2.Keys)
    ensures SameStages(stages1, stages2) <==> Steady(nodes1, graph, order)
  {
    var level :| Levelling(graph, level) && SameStageNumbers(Pass(Levelled(nodes1, level), order), nodes2);
    RepeatedExactlyWhen(nodes1, level, order);
    ListsAgree(nodes1, nodes2, stages1, stages2);
    SteadyForOne(nodes1, graph, order, level);
    SameNumbersThrough(Pass(Levelled(nodes1, level), order), nodes1, nodes2);
  }

  lemma SteadyForOne(nodes: Nodes, graph: Graph, order: seq<Name>, level: map<Name, nat>)
    requires Levelling(graph, level)
    ensures Steady(nodes, graph, order) <==> SteadyEverywhere(nodes, level, order)
  {
    if Steady(nodes, graph, order) {
      var level' :| Levelling(graph, level') && SteadyEverywhere(nodes, level', order);
      OneLevelling(graph, level, level');
    }
  }

  lemma SameNumbersThrough(a: Nodes, b: Nodes, c: Nodes)
    requires b.Keys == c.Keys && SameStageNumbers(a, c)
    ensures SameStageNumbers(b, c) <==> SameStageNumbers(a, b)
  {
  }

  lemma ListsAgree(a: Nodes, b: Nodes, stagesA: Stages, stagesB: Stages)
    requires a.Keys == b.Keys
    requires StagesList(stagesA, a, a.Keys) && StagesList(stagesB, b, b.Keys)
    ensures SameStages(stagesA, stagesB) <==> SameStageNumbers(a, b)
  {
    if SameStages(stagesA, stagesB) {
      forall s | s in b ensures a[s].stage == b[s].stage {
        assert s in a.Keys && ListedAt(stagesA, s, a[s].stage.value);
        assert ListedAt(stagesB, s, a[s].stage.value);
      }
    }
    if SameStageNumbers(a, b) {
      forall s, k: nat ensures ListedAt(stagesA, s, k) <==> ListedAt(stagesB, s, k) {
        assert s in a.Keys ==> ListedAt(stagesA, s, a[s].stage.value) && ListedAt(stagesB, s, b[s].stage.value);
      }
    }
  }

  /** What a second validation of each service comes to. */
  ghost predicate Rechecked(nodes: Nodes, graph: Graph) {
    forall s :: s in nodes ==>
      if RequiredNames(nodes[s].dependencies) <= nodes.Keys
      then CheckFrom(nodes[s].dependencies, 0, Succ(graph, s), nodes.Keys) == Clear(Succ(graph, s))
      else CheckFrom(nodes[s].dependencies, 0, Succ(graph, s), nodes.Keys).EdgeGone?
  }

  lemma AfterOne(nodes0: Nodes, graph0: Graph, nodes1: Nodes, graph1: Graph)
    requires SameServices(nodes0, nodes1)
    requires Accepted(nodes0, graph0, graph1)
    ensures Rechecked(nodes1, graph1) && (AllRegistered(nodes0) <==> AllRegistered(nodes1))
    ensures AllRegistered(nodes0) && Covers(nodes0, graph0) ==> Covers(nodes1, graph1)
  {
    forall s | s in nodes1
      ensures if RequiredNames(nodes1[s].dependencies) <= nodes1.Keys
              then CheckFrom(nodes1[s].dependencies, 0, Succ(graph1, s), nodes1.Keys) == Clear(Succ(graph1, s))
                   && Succ(graph1, s) == Succ(graph0, s)
              else CheckFrom(nodes1[s].dependencies, 0, Succ(graph1, s), nodes1.Keys).EdgeGone?
    {
      SecondCheck(nodes0[s].dependencies, Succ(graph0, s), Succ(graph1, s), nodes0.Keys);
    }
  }

  lemma SecondFails(nodes: Nodes, graph: Graph, graph': Graph, two: Resolution)
    requires Rechecked(nodes, graph) && !AllRegistered(nodes)
    requires if two.MissingRequired? || two.EdgeAlreadyGone?
             then RejectedAs(nodes, graph, Some(two))
             else Accepted(nodes, graph, graph')
    ensures two.EdgeAlreadyGone?
  {
    var s, n :| s in nodes && n in RequiredNames(nodes[s].dependencies) && n !in nodes;
    assert CheckFrom(nodes[s].dependencies, 0, Succ(graph, s), nodes.Keys).EdgeGone?;
  }

  /** A second resolution with nothing to substitute works on the same current dependencies,
      the same edges and the same order. */
  lemma SecondPass(nodes0: Nodes, nodes1: Nodes, graph1: Graph, stages1: Stages,
                   nodes2: Nodes, graph2: Graph, stages2: Stages, order: seq<Name>)
    requires SameServices(nodes0, nodes1) && SameServices(nodes1, nodes2)
    requires Rechecked(nodes1, graph1) && AllRegistered(nodes1) && Covers(nodes1, graph1)
    requires graph1.Keys == graph2.Keys && graph1.Keys <= nodes1.Keys && Accepted(nodes1, graph1, graph2)
    requires WellStaged(nodes0, nodes1, graph1, stages1, order)
    requires WellStaged(nodes1, nodes2, graph2, stages2, order)
    ensures graph2 == graph1 && SameStages(stages1, stages2)
  {
    SecondGraph(nodes1, graph1, graph2);
    RelationsKept(nodes1, nodes0, graph1);
    StagesDetermined(nodes1, nodes2, graph1, order, stages1, stages2);
  }

  lemma SecondGraph(nodes: Nodes, graph: Graph, graph': Graph)
    requires Rechecked(nodes, graph) && AllRegistered(nodes) && Accepted(nodes, graph, graph')
    requires graph.Keys == graph'.Keys && graph.Keys <= nodes.Keys
    ensures graph' == graph
  {
    forall s ensures Succ(graph', s) == Succ(graph, s) {
      if s in nodes { assert RequiredNames(nodes[s].dependencies) <= nodes.Keys; }
    }
    SameGraph(graph, graph');
  }

  // ---------------------------------------------------------------- fallbacks

  function Needs(name: Name): ServiceDependency {
    ServiceDependency(name, Required, None, None)
  }

  function NeedsOr(name: Name, fallback: Name): ServiceDependency {
    ServiceDependency(name, Required, Some(fallback), None)
  }

  predicate Different(a: Name, b: Name, c: Name) {
    a != b && b != c && a != c
  }

  /** One service needs an unregistered one and names the other as its fallback. */
  ghost predicate FallbackPair(nodes: Nodes, graph: Graph, service: Name, missing: Name, fallback: Name) {
    && Different(service, missing, fallback) && fallback != ""
    && nodes.Keys == {service, fallback} && nodes[service].dependencies == [NeedsOr(missing, fallback)]
    && nodes[fallback].dependencies == [] && graph == map[service := {missing}]
  }

  lemma OneRequired(d: ServiceDependency)
    requires d.kind.Required?
    ensures RequiredNames([d]) == {d.name}
  {
    assert d in [d];
  }

  lemma PairAccepted(nodes: Nodes, graph: Graph, service: Name, missing: Name, fallback: Name)
    requires FallbackPair(nodes, graph, service, missing, fallback)
    ensures CheckFrom(nodes[service].dependencies, 0, Succ(graph, service), nodes.Keys) == Clear({fallback})
    ensures CheckFrom(nodes[fallback].dependencies, 0, Succ(graph, fallback), nodes.Keys) == Clear({})
  {
    var deps := nodes[service].dependencies;
    assert fallback in nodes.Keys && missing !in nodes.Keys;
    assert CheckFrom(deps, 1, {fallback}, nodes.Keys) == Clear({fallback});
    assert Succ(graph, service) - {missing} + {fallback} == {fallback};
  }

  method RegisterPair(service: Name, missing: Name, fallback: Name) returns (resolver: ServiceDependencyResolver)
    requires Different(service, missing, fallback) && fallback != ""
    ensures fresh(resolver) && resolver.Valid() && resolver.order == [service, fallback]
    ensures FallbackPair(resolver.nodes, resolver.graph, service, missing, fallback)
  {
    resolver := new ServiceDependencyResolver();
    OneRequired(NeedsOr(missing, fallback));
    resolver.AddService(service, [NeedsOr(missing, fallback)]);
    OneKey(resolver.graph, service, {missing});
    resolver.AddService(fallback, []);
    assert Succ(resolver.graph, service) == {missing};
    OneKey(resolver.graph, service, {missing});
  }

  lemma OneEdgeAcyclic(a: Name, b: Name)
    requires a != b
    ensures Acyclic(map[a := {b}])
  {
    RankedAcyclic(map[a := {b}], map[a := 1, b := 0]);
  }

  lemma OneKey(graph: Graph, key: Name, edges: set<Name>)
    requires graph.Keys == {key} && Succ(graph, key) == edges
    ensures graph == map[key := edges]
  {
    assert key in graph.Keys;
  }

  lemma PairResolved(nodes: Nodes, graph: Graph, graph': Graph, r: Resolution, service: Name, missing: Name,
                     fallback: Name)
    requires FallbackPair(nodes, graph, service, missing, fallback) && graph'.Keys == graph.Keys
    requires if r.MissingRequired? || r.EdgeAlreadyGone?
             then RejectedAs(nodes, graph, Some(r))
             else Accepted(nodes, graph, graph')
    ensures !r.MissingRequired? && !r.EdgeAlreadyGone? && graph' == map[service := {fallback}]
  {
    PairAccepted(nodes, graph, service, missing, fallback);
    assert forall s :: s in nodes <==> s == service || s == fallback;
    assert !r.MissingRequired? && !r.EdgeAlreadyGone?;
    OneKey(graph', service, {fallback});
  }

  /** Registering and resolving the pair: the edge is swapped for the fallback, and staging
      still puts the service next to it, in stage 0. */
  method FallbackExample(service: Name, missing: Name, fallback: Name)
    returns (resolver: ServiceDependencyResolver, r: Resolution)
    requires Different(service, missing, fallback) && fallback != ""
    ensures fresh(resolver) && resolver.Valid() && resolver.order == [service, fallback]
    ensures resolver.nodes.Keys == {service, fallback} && resolver.nodes[fallback].dependencies == []
    ensures resolver.nodes[service].dependencies == [NeedsOr(missing, fallback)]
    ensures resolver.graph == map[service := {fallback}]
    ensures r.Resolved? && ListedAt(r.stages, service, 0) && ListedAt(r.stages, fallback, 0)
  {
    resolver := RegisterPair(service, missing, fallback);
    PairAccepted(resolver.nodes, resolver.graph, service, missing, fallback);
    assert service in resolver.nodes.Keys && fallback in resolver.nodes.Keys;
    ghost var nodes0, graph0 := resolver.nodes, resolver.graph;
    r := resolver.ResolveDependencies();
    PairResolved(nodes0, graph0, resolver.graph, r, service, missing, fallback);
    OneEdgeAcyclic(service, fallback);
    OneRequired(NeedsOr(missing, fallback));
    assert Bare(resolver.nodes, service) && Bare(resolver.nodes, fallback);
  }

  /** The pair after its fallback was substituted and the missing service was registered. */
  ghost predicate LatePair(nodes: Nodes, graph: Graph, order: seq<Name>, service: Name, missing: Name, fallback: Name) {
    && Different(service, missing, fallback) && nodes.Keys == {service, fallback, missing}
    && nodes[service].dependencies == [NeedsOr(missing, fallback)]
    && nodes[fallback].dependencies == [] && nodes[missing].dependencies == []
    && graph == map[service := {fallback}] && order == [service, fallback, missing]
    && (nodes[missing].stage == None || nodes[missing].stage == Some(0))
  }

  lemma PassAppend(nodes: Nodes, order: seq<Name>, s: Name)
    requires s in Pass(nodes, order)
    ensures var before := Pass(nodes, order);
            Pass(nodes, order + [s]) == Staged(before, s, NextStage(before, before[s].dependencies))
  {
    assert (order + [s])[..|order|] == order;
  }

  lemma PassOfThree(nodes: Nodes, a: Name, b: Name, c: Name)
    requires a in nodes && b in nodes && c in nodes
    ensures var one := Staged(nodes, a, NextStage(nodes, nodes[a].dependencies));
            var two := Staged(one, b, NextStage(one, one[b].dependencies));
            Pass(nodes, [a, b, c]) == Staged(two, c, NextStage(two, two[c].dependencies))
  {
    PassAppend(nodes, [], a);
    PassAppend(nodes, [a], b);
    PassAppend(nodes, [a, b], c);
    assert [] + [a] == [a] && [a] + [b] == [a, b] && [a, b] + [c] == [a, b, c];
  }

  lemma NextOfOne(nodes: Nodes, d: ServiceDependency)
    requires d.kind.Required? && d.name in nodes
    ensures NextStage(nodes, [d]) == if nodes[d.name].stage.Some? then nodes[d.name].stage.value + 1 else 0
  {
    assert [d][..0] == [] && NextStage(nodes, []) == 0;
  }

  /** Over the lost edge, the service is staged after the missing one only if that one had a
      stage before. */
  lemma LateStages(was: Nodes, nodes: Nodes, graph: Graph, order: seq<Name>, service: Name, missing: Name,
                   fallback: Name)
    requires LatePair(was, graph, order, service, missing, fallback) && SameServices(was, nodes)
    requires StagedByPass(was, nodes, graph, order)
    ensures nodes[missing].stage == Some(0)
    ensures nodes[service].stage == Some(if was[missing].stage.Some? then 1 else 0)
  {
    var level :| Levelling(graph, level) && SameStageNumbers(Pass(Levelled(was, level), order), nodes);
    NotLevelled(graph, level, service, missing, fallback);
    LatePass(Levelled(was, level), service, missing, fallback);
    assert missing in nodes.Keys && service in nodes.Keys && fallback in was.Keys;
  }

  lemma NotLevelled(graph: Graph, level: map<Name, nat>, service: Name, missing: Name, fallback: Name)
    requires Different(service, missing, fallback) && graph == map[service := {fallback}] && Levelling(graph, level)
    ensures missing !in level
  {
    assert missing !in Vertices(graph);
  }

  lemma LatePass(start: Nodes, service: Name, missing: Name, fallback: Name)
    requires Different(service, missing, fallback) && service in start && missing in start && fallback in start
    requires start[service].dependencies == [NeedsOr(missing, fallback)]
    requires start[fallback].dependencies == [] && start[missing].dependencies == []
    requires start[missing].stage == None || start[missing].stage == Some(0)
    ensures var end := Pass(start, [service, fallback, missing]);
            && service in end && end[service].stage == Some(if start[missing].stage.Some? then 1 else 0)
            && missing in end && end[missing].stage == Some(0)
  {
    NextOfOne(start, NeedsOr(missing, fallback));
    PassOfThree(start, service, fallback, missing);
  }

  lemma LateAccepted(nodes: Nodes, graph: Graph, order: seq<Name>, service: Name, missing: Name, fallback: Name)
    requires LatePair(nodes, graph, order, service, missing, fallback)
    ensures AllRegistered(nodes) && Acyclic(graph)
    ensures Accepted(nodes, graph, graph)
  {
    OneEdgeAcyclic(service, fallback);
    OneRequired(NeedsOr(missing, fallback));
    assert forall s :: s in nodes <==> s in {service, fallback, missing};
    forall s | s in nodes
      ensures CheckFrom(nodes[s].dependencies, 0, Succ(graph, s), nodes.Keys) == Clear(Succ(graph, s))
    {
      NothingToSubstitute(nodes[s].dependencies, Succ(graph, s), nodes.Keys);
    }
  }

  lemma LateResolved(nodes0: Nodes, graph0: Graph, nodes: Nodes, graph: Graph, order: seq<Name>,
                     service: Name, missing: Name, fallback: Name)
    requires LatePair(nodes0, graph0, order, service, missing, fallback) && SameServices(nodes0, nodes)
    requires graph.Keys == graph0.Keys && StagedByPass(nodes0, nodes, graph, order)
    requires Accepted(nodes0, graph0, graph)
    ensures LatePair(nodes, graph, order, service, missing, fallback) && nodes[missing].stage == Some(0)
    ensures nodes[service].stage == Some(if nodes0[missing].stage.Some? then 1 else 0)
  {
    LateAccepted(nodes0, graph0, order, service, missing, fallback);
    assert service in nodes0.Keys && Succ(graph, service) == Succ(graph0, service);
    OneKey(graph, service, {fallback});
    LateStages(nodes0, nodes, graph, order, service, missing, fallback);
  }

  method ResolveLate(resolver: ServiceDependencyResolver, service: Name, missing: Name, fallback: Name)
    returns (r: Resolution)
    requires resolver.Valid() && LatePair(resolver.nodes, resolver.graph, resolver.order, service, missing, fallback)
    modifies resolver
    ensures resolver.Valid() && LatePair(resolver.nodes, resolver.graph, resolver.order, service, missing, fallback)
    ensures resolver.nodes[missing].stage == Some(0)
    ensures r.Resolved? && StagesList(r.stages, resolver.nodes, resolver.nodes.Keys)
    ensures resolver.nodes[service].stage == Some(if old(resolver.nodes)[missing].stage.Some? then 1 else 0)
  {
    ghost var nodes0, graph0 := resolver.nodes, resolver.graph;
    LateAccepted(nodes0, graph0, resolver.order, service, missing, fallback);
    r := resolver.ResolveDependencies();
    LateResolved(nodes0, graph0, resolver.nodes, resolver.graph, resolver.order, service, missing, fallback);
  }

  /** Registering the missing service after a resolution has substituted its fallback: the
      edge to it is gone for good. The next resolution puts the service in the same stage
      as the dependency it could now wait for; one more resolution puts it after. */
  method LateRegistration(service: Name, missing: Name, fallback: Name) returns (next: Resolution, last: Resolution)
    requires Different(service, missing, fallback) && fallback != ""
    ensures next.Resolved? && ListedAt(next.stages, service, 0) && ListedAt(next.stages, missing, 0)
    ensures last.Resolved? && ListedAt(last.stages, service, 1) && ListedAt(last.stages, missing, 0)
    ensures !SameStages(next.stages, last.stages)
  {
    var resolver;
    resolver, next := FallbackExample(service, missing, fallback);
    resolver.AddService(missing, []);
    assert Succ(resolver.graph, service) == {fallback};
    OneKey(resolver.graph, service, {fallback});
    next := ResolveLate(resolver, service, missing, fallback);
    assert service in resolver.nodes.Keys && missing in resolver.nodes.Keys;
    assert ListedAt(next.stages, service, 0) && !ListedAt(next.stages, service, 1);
    last := ResolveLate(resolver, service, missing, fallback);
    assert service in resolver.nodes.Keys && missing in resolver.nodes.Keys;
    assert ListedAt(last.stages, service, 1);
  }

  // ---------------------------------------------------------------- stale edges

  /** `a` was first registered as needing `b`, and then again as needing nothing. */
  ghost predicate Reregistered(nodes: Nodes, graph: Graph, order: seq<Name>, d: Name, a: Name, b: Name) {
    && Different(d, a, b) && nodes.Keys == {d, a, b} && order == [d, a, b]
    && nodes[d].dependencies == [Needs(a)] && nodes[a].dependencies == [] && nodes[b].dependencies == []
    && graph == map[d := {a}, a := {b}]
  }

  lemma TwoKeys(graph: Graph, d: Name, a: Name, b: Name)
    requires graph.Keys == {d, a} && Succ(graph, d) == {a} && Succ(graph, a) == {b}
    ensures graph == map[d := {a}, a := {b}]
  {
    assert d in graph.Keys && a in graph.Keys;
  }

  lemma TwoEdgesAcyclic(d: Name, a: Name, b: Name)
    requires Different(d, a, b)
    ensures Acyclic(map[d := {a}, a := {b}])
  {
    RankedAcyclic(map[d := {a}, a := {b}], map[d := 2, a := 1, b := 0]);
  }

  lemma TwoEdgesLevels(graph: Graph, level: map<Name, nat>, d: Name, a: Name, b: Name)
    requires Different(d, a, b) && graph == map[d := {a}, a := {b}] && Levelling(graph, level)
    ensures a in level && level[a] == 1
  {
    assert a in Vertices(graph) && b in Succ(graph, a);
    assert Tight(graph, level, a) && Tight(graph, level, b);
    assert Succ(graph, b) == {} && Succ(graph, a) == {b};
  }

  lemma StalePass(start: Nodes, d: Name, a: Name, b: Name)
    requires Different(d, a, b) && d in start && a in start && b in start && start[a].stage == Some(1)
    requires start[d].dependencies == [Needs(a)] && start[a].dependencies == [] && start[b].dependencies == []
    ensures var end := Pass(start, [d, a, b]);
            && d in end && a in end && b in end
            && end[d].stage == Some(2) && end[a].stage == Some(0) && end[b].stage == Some(0)
  {
    NextOfOne(start, Needs(a));
    PassOfThree(start, d, a, b);
  }

  lemma StaleStages(was: Nodes, nodes: Nodes, graph: Graph, order: seq<Name>, d: Name, a: Name, b: Name)
    requires Reregistered(was, graph, order, d, a, b)
    requires SameServices(was, nodes) && StagedByPass(was, nodes, graph, order)
    ensures nodes[d].stage == Some(2) && nodes[a].stage == Some(0) && nodes[b].stage == Some(0)
  {
    var level :| Levelling(graph, level) && SameStageNumbers(Pass(Levelled(was, level), order), nodes);
    TwoEdgesLevels(graph, level, d, a, b);
    assert d in was.Keys && a in was.Keys && b in was.Keys;
    StalePass(Levelled(was, level), d, a, b);
  }

  lemma StaleAccepted(nodes: Nodes, graph: Graph, order: seq<Name>, d: Name, a: Name, b: Name)
    requires Reregistered(nodes, graph, order, d, a, b)
    ensures AllRegistered(nodes) && Acyclic(graph)
    ensures Accepted(nodes, graph, graph)
  {
    TwoEdgesAcyclic(d, a, b);
    OneRequired(Needs(a));
    assert forall s :: s in nodes <==> s in {d, a, b};
    forall s | s in nodes
      ensures CheckFrom(nodes[s].dependencies, 0, Succ(graph, s), nodes.Keys) == Clear(Succ(graph, s))
    {
      NothingToSubstitute(nodes[s].dependencies, Succ(graph, s), nodes.Keys);
    }
  }

  lemma ChainOfOne(nodes: Nodes, graph: Graph, order: seq<Name>, d: Name, a: Name, b: Name)
    requires Reregistered(nodes, graph, order, d, a, b)
    ensures LongestChain(Current(nodes), d, 1)
  {
    OneRequired(Needs(a));
    var g := Current(nodes);
    assert d in nodes.Keys && a in nodes.Keys && Succ(g, d) == {a} && Succ(g, a) == {};
    assert WalkFrom(g, d, [d, a]);
    forall p | WalkFrom(g, d, p) ensures |p| <= 2 {
      if |p| > 1 {
        assert p[0 + 1] in Succ(g, p[0]);
        WalkSlice(g, p, 1, |p|);
        LeavingNeedsSuccessor(g, a, p[1..]);
      }
    }
  }

  method RegisterTwice(d: Name, a: Name, b: Name) returns (resolver: ServiceDependencyResolver)
    requires Different(d, a, b)
    ensures fresh(resolver) && resolver.Valid()
    ensures Reregistered(resolver.nodes, resolver.graph, resolver.order, d, a, b)
  {
    resolver := RegisterThree(d, a, b);
    ghost var graph := resolver.graph;
    assert RequiredNames([]) == {};
    resolver.AddService(a, []);
    SameGraph(graph, resolver.graph);
  }

  method RegisterThree(d: Name, a: Name, b: Name) returns (resolver: ServiceDependencyResolver)
    requires Different(d, a, b)
    ensures fresh(resolver) && resolver.Valid() && resolver.order == [d, a, b]
    ensures resolver.graph == map[d := {a}, a := {b}] && resolver.nodes.Keys == {d, a, b}
    ensures resolver.nodes[d].dependencies == [Needs(a)] && resolver.nodes[b].dependencies == []
  {
    resolver := RegisterTwo(d, a, b);
    ghost var graph := resolver.graph;
    assert RequiredNames([]) == {};
    resolver.AddService(b, []);
    SameGraph(graph, resolver.graph);
  }

  lemma SameGraph(g: Graph, g': Graph)
    requires g'.Keys == g.Keys && forall s :: Succ(g', s) == Succ(g, s)
    ensures g' == g
  {
    forall s | s in g ensures g'[s] == g[s] { assert Succ(g', s) == Succ(g, s); }
  }

  method RegisterTwo(d: Name, a: Name, b: Name) returns (resolver: ServiceDependencyResolver)
    requires Different(d, a, b)
    ensures fresh(resolver) && resolver.Valid() && resolver.order == [d, a]
    ensures resolver.graph == map[d := {a}, a := {b}] && resolver.nodes.Keys == {d, a}
    ensures resolver.nodes[d].dependencies == [Needs(a)]
  {
    resolver := new ServiceDependencyResolver();
    OneRequired(Needs(a));
    OneRequired(Needs(b));
    resolver.AddService(d, [Needs(a)]);
    OneKey(resolver.graph, d, {a});
    assert resolver.nodes.Keys == {d};
    resolver.AddService(a, [Needs(b)]);
    assert Succ(resolver.graph, d) == {a};
    TwoKeys(resolver.graph, d, a, b);
  }

  /** With a stale edge, a stage can exceed the longest current chain, and a service can be
      reported as impacted by one of its own stage. */
  method StaleEdges(d: Name, a: Name, b: Name)
    returns (resolver: ServiceDependencyResolver, r: Resolution, impacted: set<Name>)
    requires Different(d, a, b)
    ensures r.Resolved? && ListedAt(r.stages, d, 2) && ListedAt(r.stages, a, 0) && ListedAt(r.stages, b, 0)
    ensures LongestChain(Current(resolver.nodes), d, 1)
    ensures a in impacted && !ImpactedLater(resolver.nodes, resolver.reverse)
  {
    resolver := RegisterTwice(d, a, b);
    ghost var nodes0, graph0 := resolver.nodes, resolver.graph;
    StaleAccepted(nodes0, graph0, resolver.order, d, a, b);
    r := resolver.ResolveDependencies();
    SameEdgesKept(nodes0, graph0, resolver.graph);
    StaleEdgeStays(nodes0, graph0, resolver.nodes, resolver.graph, resolver.order, d, a, b);
    StaleStages(nodes0, resolver.nodes, resolver.graph, resolver.order, d, a, b);
    ChainOfOne(resolver.nodes, resolver.graph, resolver.order, d, a, b);
    impacted := resolver.GetImpactedServices(b);
    ReachesStep(resolver.reverse, b, a);
    assert d in resolver.nodes.Keys && a in resolver.nodes.Keys && b in resolver.nodes.Keys;
  }

  lemma SameEdgesKept(nodes: Nodes, graph: Graph, graph': Graph)
    requires Accepted(nodes, graph, graph)
    requires Accepted(nodes, graph, graph')
    ensures forall s :: s in nodes ==> Succ(graph', s) == Succ(graph, s)
  {
  }

  lemma StaleEdgeStays(nodes0: Nodes, graph0: Graph, nodes: Nodes, graph: Graph, order: seq<Name>, d: Name, a: Name,
                       b: Name)
    requires Reregistered(nodes0, graph0, order, d, a, b) && SameServices(nodes0, nodes)
    requires graph.Keys == graph0.Keys && forall s :: s in nodes0 ==> Succ(graph, s) == Succ(graph0, s)
    ensures Reregistered(nodes, graph, order, d, a, b) && graph == graph0
    ensures a in nodes && b in Succ(graph, a)
  {
    assert d in nodes0.Keys && a in nodes0.Keys && d in graph0 && a in graph0;
    TwoKeys(graph, d, a, b);
  }
}
