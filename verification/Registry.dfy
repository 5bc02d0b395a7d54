/** The service registry: registration, the starters' segments as methods on the
    registry's own records, a stage run in an arbitrary interleaving, and the whole
    start-up on top of the resolver. */
module Registry {
  import opened Services
  import opened Names
  import opened Graphs
  import opened Resolver
  import opened Startup
  import opened Histories
  import opened Chains

  datatype StartupResult =
    | Started
    | StageFailed(failed: seq<Name>, impacted: map<Name, set<Name>>)
    | NotResolved(reason: Resolution)

  /** The plan that executing `stages` in the order of `numbers` amounts to. */
  function PlanOf(deps: map<Name, seq<ServiceDependency>>, stages: Stages, numbers: seq<nat>,
                  env: Name -> InitOutcome): Plan {
    Plan(deps, map n | n in deps && IsStaged(stages, numbers, n) :: StageIndex(stages, numbers, n), |numbers|, env)
  }

  predicate IsStaged(stages: Stages, numbers: seq<nat>, n: Name) {
    exists i :: 0 <= i < |numbers| && ListedAt(stages, n, numbers[i])
  }

  /** The position of the stage that lists `n`. */
  function StageIndex(stages: Stages, numbers: seq<nat>, n: Name): (k: nat)
    requires IsStaged(stages, numbers, n)
    ensures k < |numbers| && ListedAt(stages, n, numbers[k])
  {
    if ListedAt(stages, n, numbers[0]) then 0
    else
      assert IsStaged(stages, numbers[1..], n) by {
        var i :| 0 <= i < |numbers| && ListedAt(stages, n, numbers[i]);
        assert numbers[1..][i - 1] == numbers[i];
      }
      1 + StageIndex(stages, numbers[1..], n)
  }

  lemma PlanLevel(nodes: Nodes, stages: Stages, numbers: seq<nat>, n: Name)
    requires StagesList(stages, nodes, nodes.Keys) && n in nodes && forall k :: k in stages ==> k in numbers
    ensures IsStaged(stages, numbers, n) && nodes[n].stage == Some(numbers[StageIndex(stages, numbers, n)])
  {
    assert n in nodes.Keys;
    var i :| 0 <= i < |numbers| && numbers[i] == nodes[n].stage.value;
    assert ListedAt(stages, n, numbers[i]);
    assert ListedAt(stages, n, numbers[StageIndex(stages, numbers, n)]);
  }

  /** The plan covers all services, and its levels are positions of their stages. */
  ghost predicate Follows(p: Plan, nodes: Nodes, numbers: seq<nat>) {
    && p.level.Keys == p.deps.Keys == nodes.Keys && p.height == |numbers|
    && (forall n :: n in p.level ==> p.level[n] < |numbers| && nodes[n].stage == Some(numbers[p.level[n]]))
    && (forall n :: n in p.deps ==> p.deps[n] == nodes[n].dependencies)
  }

  lemma PlanFollows(nodes: Nodes, deps: map<Name, seq<ServiceDependency>>, stages: Stages, numbers: seq<nat>,
                    env: Name -> InitOutcome)
    requires deps.Keys == nodes.Keys && forall n :: n in deps ==> deps[n] == nodes[n].dependencies
    requires StagesList(stages, nodes, nodes.Keys) && forall k :: k in stages ==> k in numbers
    ensures Follows(PlanOf(deps, stages, numbers, env), nodes, numbers)
  {
    forall n | n in deps
      ensures IsStaged(stages, numbers, n) && nodes[n].stage == Some(numbers[StageIndex(stages, numbers, n)])
    {
      PlanLevel(nodes, stages, numbers, n);
    }
  }

  /** Earlier stage, earlier level: the resolver's ordering is what the start-up needs. */
  lemma PlanIsWell(p: Plan, nodes: Nodes, numbers: seq<nat>)
    requires Follows(p, nodes, numbers) && Increasing(numbers) && DependenciesEarlier(nodes)
    ensures WellPlanned(p)
  {
    forall n, d | n in p.level && d in RequiredNames(p.deps[n]) && d in p.level ensures p.level[d] < p.level[n] {
      assert nodes[d].stage.value < nodes[n].stage.value;
      LevelOrder(p, nodes, numbers, d, n);
    }
  }

  lemma LevelOrder(p: Plan, nodes: Nodes, numbers: seq<nat>, d: Name, n: Name)
    requires Follows(p, nodes, numbers) && Increasing(numbers) && d in nodes && n in nodes
    ensures nodes[d].stage.Some? && nodes[n].stage.Some?
    ensures p.level[d] < p.level[n] <==> nodes[d].stage.value < nodes[n].stage.value
  {
    var i, j := p.level[d], p.level[n];
    assert nodes[d].stage == Some(numbers[i]) && nodes[n].stage == Some(numbers[j]);
  }

  /** How many segments a starter is into its work, counting from 1. */
  function Segment(phase: Phase): nat {
    match phase case Queued => 1 case Initialising => 2 case Stored => 3 case Ended(_) => 4
  }

  function Behind(phases: map<Name, Phase>, k: nat): set<Name> {
    set n | n in phases && Segment(phases[n]) == k
  }

  lemma PhaseAdvances(phases: map<Name, Phase>, n: Name, phase: Phase)
    requires n in phases && Segment(phases[n]) < Segment(phase)
    ensures Behind(phases[n := phase], Segment(phases[n])) < Behind(phases, Segment(phases[n]))
    ensures forall k: nat :: k < Segment(phases[n]) ==> Behind(phases[n := phase], k) == Behind(phases, k)
  {
    assert n in Behind(phases, Segment(phases[n]));
  }

  class EnhancedServiceRegistry {
    const resolver: ServiceDependencyResolver
    var definitions: map<Name, seq<ServiceDependency>>
    var services: map<Name, Instance>
    var status: map<Name, Status>
    var startupErrors: map<Name, Failure>
    /** For each service, the arguments its initialiser was last called with. */
    var injected: map<Name, map<string, Instance>>

    ghost predicate Valid()
      reads this`definitions, resolver
    {
      && resolver.Valid()
      && definitions.Keys == resolver.nodes.Keys
      && forall n :: n in definitions ==> definitions[n] == resolver.nodes[n].dependencies
    }

    constructor ()
      ensures Valid() && fresh(resolver)
      ensures definitions == map[] && Untouched() && resolver.order == []
      ensures Strict(resolver.nodes, resolver.graph) && Exact(resolver.nodes, resolver.graph)
    {
      resolver := new ServiceDependencyResolver();
      definitions, services, status, startupErrors, injected := map[], map[], map[], map[], map[];
    }

    /** No start-up has run yet. */
    predicate Untouched()
      reads this
    {
      services == map[] && status == map[] && startupErrors == map[] && injected == map[]
    }

    method RegisterService(name: Name, dependencies: seq<ServiceDependency>)
      requires Valid()
      modifies this`definitions, resolver
      ensures Valid()
      ensures definitions == old(definitions)[name := dependencies]
      ensures resolver.order == if name in old(definitions) then old(resolver.order) else old(resolver.order) + [name]
      ensures resolver.graph.Keys == old(resolver.graph.Keys) + if RequiredNames(dependencies) != {} then {name} else {}
      ensures Succ(resolver.graph, name) == old(Succ(resolver.graph, name)) + RequiredNames(dependencies)
      ensures forall s :: s != name ==> Succ(resolver.graph, s) == old(Succ(resolver.graph, s))
      ensures old(Strict(resolver.nodes, resolver.graph)) ==> Strict(resolver.nodes, resolver.graph)
      ensures old(Exact(resolver.nodes, resolver.graph)) && name !in old(definitions) ==>
                Exact(resolver.nodes, resolver.graph)
    {
      definitions := definitions[name := dependencies];
      resolver.AddService(name, dependencies);
    }

    predicate HasService(name: Name)
      reads this`services, this`status
    {
      name in services && Get(status, name) == Some(Healthy)
    }

    /** The registry's records are those of the state `s`. */
    ghost predicate Shows(s: State)
      reads this
    {
      services == s.services && status == s.status && startupErrors == s.errors && injected == s.injected
    }

    method CheckDependencies(deps: seq<ServiceDependency>, ghost s: State) returns (missing: Option<Name>)
      requires Shows(s)
      ensures missing == FirstUnavailable(deps, s)
    {
      for i := 0 to |deps|
        invariant FirstUnavailable(deps, s) == FirstUnavailable(deps[i..], s)
      {
        assert deps[i..][1..] == deps[i + 1..];
        if deps[i].kind.Required? && !HasService(deps[i].name) { return Some(deps[i].name); }
      }
      return None;
    }

    method CollectArguments(deps: seq<ServiceDependency>, ghost s: State) returns (kwargs: map<string, Instance>)
      requires Shows(s)
      ensures kwargs == Kwargs(deps, |deps|, s)
    {
      kwargs := map[];
      for i := 0 to |deps|
        invariant kwargs == Kwargs(deps, i, s)
      {
        if HasService(deps[i].name) {
          kwargs := kwargs[ParameterName(deps[i]) := services[deps[i].name]];
        }
      }
    }

    /** A starter up to its first await: STARTING, dependency check, injection. */
    method BeginStarter(name: Name, ghost p: Plan, ghost s: State) returns (phase: Phase)
      requires name in definitions && name in p.deps && p.deps[name] == definitions[name] && Shows(s)
      modifies this`status, this`injected
      ensures Shows(BeginStep(p, s, name)) && BeginStep(p, s, name).tasks == s.tasks[name := phase]
      ensures Begun(definitions[name], s, BeginStep(p, s, name), name)
    {
      status := status[name := Starting];
      ghost var s' := MarkStarting(s, name);
      var missing := CheckDependencies(definitions[name], s');
      if missing.Some? {
        status := status[name := Failed];
        phase := Ended(Some(DependencyUnavailable(missing.value)));
      } else {
        var kwargs := CollectArguments(definitions[name], s');
        injected := injected[name := kwargs];
        phase := Initialising;
      }
      BeginMeaning(p, s, name);
    }

    /** The initialiser's outcome arrives. */
    method InitialiserReturned(name: Name, outcome: InitOutcome, ghost p: Plan, ghost s: State) returns (phase: Phase)
      requires Shows(s) && p.env(name) == outcome
      modifies this`status, this`services
      ensures Shows(ReturnStep(p, s, name)) && ReturnStep(p, s, name).tasks == s.tasks[name := phase]
      ensures outcome.InitRaises? ==> phase == Ended(Some(InitFailed(outcome.code)))
                                      && status == old(status)[name := Failed] && services == old(services)
      ensures !outcome.InitRaises? ==> phase == Stored && status == old(status)
                                       && services == old(services)[name := outcome.instance]
    {
      if outcome.InitRaises? {
        status := status[name := Failed];
        return Ended(Some(InitFailed(outcome.code)));
      }
      services := services[name := outcome.instance];
      return Stored;
    }

    /** The service's own start-up is over. */
    method StartupReturned(name: Name, outcome: InitOutcome, ghost p: Plan, ghost s: State) returns (phase: Phase)
      requires Shows(s) && p.env(name) == outcome
      modifies this`status
      ensures Shows(FinishStep(p, s, name)) && FinishStep(p, s, name).tasks == s.tasks[name := phase]
      ensures status == old(status)[name := if outcome.StartupRaises? then Failed else Healthy]
      ensures phase == Ended(if outcome.StartupRaises? then Some(InitFailed(outcome.code)) else None)
    {
      if outcome.StartupRaises? {
        status := status[name := Failed];
        return Ended(Some(InitFailed(outcome.code)));
      }
      status := status[name := Healthy];
      return Ended(None);
    }

    /** The next segment of the starter of `name`, whichever it is. */
    method AdvanceStarter(name: Name, phase: Phase, outcome: InitOutcome, ghost p: Plan, ghost s: State)
      returns (phase': Phase, ghost l: Label)
      requires Shows(s) && s.verdict == Running && Get(s.tasks, name) == Some(phase) && !phase.Ended?
      requires p.deps == definitions && name in definitions && p.env(name) == outcome
      modifies this`status, this`injected, this`services
      ensures Enabled(p, s, l) && Shows(Step(p, s, l))
      ensures Step(p, s, l).tasks == s.tasks[name := phase']
      ensures Step(p, s, l).verdict == Running && Step(p, s, l).stage == s.stage
      ensures Segment(phase) < Segment(phase')
    {
      match phase {
        case Queued =>
          l := Begin(name);
          phase' := BeginStarter(name, p, s);
        case Initialising =>
          l := InitReturns(name);
          phase' := InitialiserReturned(name, outcome, p, s);
        case Stored =>
          l := Finishes(name);
          phase' := StartupReturned(name, outcome, p, s);
      }
      assert Step(p, s, l).tasks[name] == phase';
    }

    /** `gather` over the starters of one stage: as long as one has not ended, any one of
        those goes on by a segment. */
    method RunStarters(names: seq<Name>, env: Name -> InitOutcome, ghost p: Plan, ghost start: State,
                       ghost before: seq<Label>, ghost s: State)
      returns (phases: map<Name, Phase>, ghost schedule: seq<Label>, ghost s': State)
      requires p.deps == definitions && p.env == env && Run(p, start, before) == Some(s)
      requires Shows(s) && s.verdict == Running && s.tasks == map n | n in names :: Queued
      requires forall n :: n in names ==> n in definitions
      modifies this`status, this`injected, this`services
      ensures Run(p, start, schedule) == Some(s') && Shows(s')
      ensures s'.verdict == Running && s'.tasks == phases && s'.stage == s.stage
      ensures phases.Keys == (set n | n in names) && forall n :: n in phases ==> phases[n].Ended?
    {
      phases := map n | n in names :: Queued;
      schedule, s' := before, s;
      while exists n :: n in phases && !phases[n].Ended?
        invariant Run(p, start, schedule) == Some(s') && Shows(s') && s'.verdict == Running && s'.tasks == phases
        invariant s'.stage == s.stage && phases.Keys == set n | n in names
        decreases Behind(phases, 1), Behind(phases, 2), Behind(phases, 3)
      {
        var n :| n in phases && !phases[n].Ended?;
        var phase;
        ghost var l;
        phase, l := AdvanceStarter(n, phases[n], env(n), p, s');
        RunOneMore(p, start, schedule, l);
        PhaseAdvances(phases, n, phase);
        s', schedule, phases := Step(p, s', l), schedule + [l], phases[n := phase];
      }
    }

    /** Runs one stage, records its failures and looks up whom each one impacts. Results
        are matched to names by position, which is right because every listed service has
        a definition. */
    method ExecuteStage(names: seq<Name>, env: Name -> InitOutcome, ghost p: Plan, ghost start: State,
                        ghost before: seq<Label>, ghost s: State)
      returns (failures: seq<Name>, impacted: map<Name, set<Name>>, ghost schedule: seq<Label>, ghost s': State)
      requires p.deps == definitions && p.env == env && Run(p, start, before) == Some(s) && AtStage(p, s) && Shows(s)
      requires NoDuplicates(names) && forall n :: n in names <==> n in StageTasks(p, s.stage)
      requires forall n :: n in names ==> n in definitions
      modifies this`status, this`injected, this`services, this`startupErrors
      ensures Run(p, start, schedule) == Some(s') && Shows(s') && AfterStage(p, s.stage, s', failures)
      ensures Impacts(failures, impacted, resolver.reverse) && InOrder(failures, names)
    {
      var running := Defined(names);
      assert (map n | n in running :: Queued) == StageTasks(p, s.stage);
      var phases;
      phases, schedule, s' := RunStarters(running, env, p, start, before, s);
      failures := RecordFailures(names, running, phases, s');
      RunOneMore(p, start, schedule, GatherReturns);
      GatherOutcome(p, s', failures);
      schedule, s' := schedule + [GatherReturns], GatherStep(p, s');
      impacted := LookUpImpacted(failures);
    }

    method LookUpImpacted(failures: seq<Name>) returns (impacted: map<Name, set<Name>>)
      ensures Impacts(failures, impacted, resolver.reverse)
    {
      impacted := map[];
      for i := 0 to |failures|
        invariant Impacts(failures[..i], impacted, resolver.reverse)
      {
        var services := resolver.GetImpactedServices(failures[i]);
        impacted := impacted[failures[i] := services];
        assert failures[..i + 1] == failures[..i] + [failures[i]];
      }
      assert failures[..|failures|] == failures;
    }

    method Defined(names: seq<Name>) returns (running: seq<Name>)
      ensures (forall n :: n in names ==> n in definitions) ==> running == names
    {
      running := [];
      for i := 0 to |names|
        invariant (forall n :: n in names ==> n in definitions) ==> running == names[..i]
      {
        if names[i] in definitions { running := running + [names[i]]; }
      }
    }

    method RecordFailures(names: seq<Name>, running: seq<Name>, phases: map<Name, Phase>, ghost s: State)
      returns (failures: seq<Name>)
      requires running == names && NoDuplicates(names) && Shows(s)
      requires phases == s.tasks && forall n :: n in phases <==> n in names
      requires forall n :: n in phases ==> phases[n].Ended?
      modifies this`startupErrors
      ensures services == s.services && status == s.status && injected == s.injected
      ensures startupErrors == s.errors + Failures(s)
      ensures forall n :: n in failures <==> n in Failures(s)
      ensures failures == [] <==> Failures(s) == map[]
      ensures InOrder(failures, names)
    {
      failures := [];
      for i := 0 to |running|
        invariant startupErrors == s.errors + FailuresAmong(s, names[..i])
        invariant forall n :: n in failures <==> n in FailuresAmong(s, names[..i])
        invariant InOrder(failures, names)
      {
        FailuresOneMore(s, names, i);
        InOrderOneMore(failures, names, i);
        if phases[running[i]].failure.Some? {
          startupErrors := startupErrors[names[i] := phases[running[i]].failure.value];
          failures := failures + [names[i]];
        }
      }
      assert names[..|names|] == names;
      AllFailures(s, names);
      if failures == [] {
        assert forall n :: n !in Failures(s);
      } else {
        assert failures[0] in Failures(s);
      }
    }

    /** The stages in increasing order, until one fails. Whatever the interleaving, what
        happens is a run of the plan `p`. */
    method RunStages(stages: Stages, numbers: seq<nat>, env: Name -> InitOutcome, ghost p: Plan)
      returns (r: StartupResult, ghost schedule: seq<Label>, ghost end: State)
      requires p.env == env && p.deps == definitions && definitions.Keys == resolver.nodes.Keys
      requires StagesList(stages, resolver.nodes, resolver.nodes.Keys)
      requires SortsTo(stages, numbers) && Follows(p, resolver.nodes, numbers)
      modifies this`status, this`injected, this`services, this`startupErrors
      ensures RunsTo(p, old(Records()), schedule, r, end) && Shows(end)
      ensures r.StageFailed? ==> Impacts(r.failed, r.impacted, resolver.reverse)
    {
      ghost var start := StartFrom(p, Records());
      schedule, end := [], start;
      for i := 0 to |numbers|
        invariant Run(p, start, schedule) == Some(end) && Shows(end) && end.stage == i
        invariant if i < p.height then AtStage(p, end) else end.verdict == Up
      {
        StageNames(p, resolver.nodes, stages, numbers, i);
        var failures, impacted;
        failures, impacted, schedule, end := ExecuteStage(stages[numbers[i]], env, p, start, schedule, end);
        if failures != [] {
          return StageFailed(failures, impacted), schedule, end;
        }
      }
      return Started, schedule, end;
    }

    /** The registry's records as a state in which no stage has begun. */
    ghost function Records(): State
      reads this
    {
      State(0, map[], services, status, injected, startupErrors, Running)
    }

    /** Resolution, and the plan that its stages in sorted order amount to. */
    method PlanStages(env: Name -> InitOutcome) returns (resolution: Resolution, numbers: seq<nat>, ghost p: Plan)
      requires Valid()
      modifies resolver
      ensures Valid() && SameServices(old(resolver.nodes), resolver.nodes)
      ensures resolver.graph.Keys == old(resolver.graph.Keys) && resolver.order == old(resolver.order)
      ensures p.env == env && p.deps == definitions
      ensures resolution.Resolved? ==> Executable(resolution.stages, resolver.nodes, numbers, p)
      ensures !resolution.Resolved? ==>
                ReasonRight(old(resolver.nodes), old(resolver.graph), resolver.graph, resolution)
      ensures resolution.Resolved? ==>
                Accepted(old(resolver.nodes), old(resolver.graph), resolver.graph) && BareAtOnce(p)
      ensures resolution.Resolved? && old(Covers(resolver.nodes, resolver.graph)) ==>
                WellPlanned(p) && LevelsByChains(p, resolver.graph, resolver.order)
      ensures old(AllRegistered(resolver.nodes)) ==> (resolution.Resolved? <==> old(Acyclic(resolver.graph)))
    {
      numbers, p := [], Plan(definitions, map[], 0, env);
      ghost var nodes0, graph0 := resolver.nodes, resolver.graph;
      resolution := resolver.ResolveDependencies();
      if resolution.Resolved? {
        numbers := SortedNumbers(resolution.stages.Keys);
        p := PlanOf(definitions, resolution.stages, numbers, env);
        ResolvedPlan(nodes0, graph0, resolver.nodes, resolver.graph, resolution.stages,
                     resolver.order, definitions, numbers, env);
        BareInFirst(p, resolver.nodes, numbers);
      }
    }

    /** The whole start-up. On a registry that was never started and whose graph has
        every edge between registered services, it succeeds if and only if every Required
        dependency is registered, there is no cycle, and every service comes up by
        itself; and either way it ends as the plan says, whatever the schedule was. */
    method StartupAll(env: Name -> InitOutcome)
      returns (r: StartupResult, ghost p: Plan, ghost schedule: seq<Label>, ghost end: State)
      requires Valid()
      modifies this`status, this`injected, this`services, this`startupErrors, resolver
      ensures Valid() && resolver.graph.Keys == old(resolver.graph.Keys) && resolver.order == old(resolver.order)
      ensures p.env == env && p.deps == old(definitions)
      ensures if r.NotResolved? then Records() == old(Records()) && !r.reason.Resolved?
              else RunsTo(p, old(Records()), schedule, r, end) && Shows(end)
      ensures old(Untouched() && Covers(resolver.nodes, resolver.graph)) ==>
                StartsWhenDue(old(resolver.nodes), old(resolver.graph), p, r, end)
      ensures r.NotResolved? ==> ReasonRight(old(resolver.nodes), old(resolver.graph), resolver.graph, r.reason)
      ensures !r.NotResolved? ==> Accepted(old(resolver.nodes), old(resolver.graph), resolver.graph) && BareAtOnce(p)
      ensures !r.NotResolved? && old(Covers(resolver.nodes, resolver.graph)) ==>
                LevelsByChains(p, resolver.graph, resolver.order)
      ensures old(AllRegistered(resolver.nodes)) ==> (r.NotResolved? <==> !old(Acyclic(resolver.graph)))
      ensures r.StageFailed? ==> Impacts(r.failed, r.impacted, resolver.reverse)
    {
      ghost var nodes0, graph0 := resolver.nodes, resolver.graph;
      ghost var due := Untouched() && Covers(nodes0, graph0);
      var resolution, numbers;
      resolution, numbers, p := PlanStages(env);
      if !resolution.Resolved? { return NotResolved(resolution), p, [], Records(); }
      r, schedule, end := RunAndJudge(resolution.stages, numbers, env, p, due, nodes0, graph0);
    }

    method RunAndJudge(stages: Stages, numbers: seq<nat>, env: Name -> InitOutcome, ghost p: Plan, ghost due: bool,
                       ghost nodes: Nodes, ghost graph: Graph)
      returns (r: StartupResult, ghost schedule: seq<Label>, ghost end: State)
      requires Valid() && p.env == env && p.deps == definitions
      requires Executable(stages, resolver.nodes, numbers, p)
      requires SameServices(nodes, resolver.nodes)
      requires due ==> Untouched() && WellPlanned(p) && (AllRegistered(nodes) ==> Acyclic(graph))
      modifies this`status, this`injected, this`services, this`startupErrors
      ensures Valid() && !r.NotResolved? && RunsTo(p, old(Records()), schedule, r, end) && Shows(end)
      ensures r.StageFailed? ==> Impacts(r.failed, r.impacted, resolver.reverse)
      ensures due ==> StartsWhenDue(nodes, graph, p, r, end)
    {
      r, schedule, end := RunStages(stages, numbers, env, p);
      if due { StartupVerdict(nodes, graph, p, schedule, r, end); }
    }
  }

  /** The stages list all services, and the plan follows them in the order of `numbers`. */
  ghost predicate Executable(stages: Stages, nodes: Nodes, numbers: seq<nat>, p: Plan) {
    StagesList(stages, nodes, nodes.Keys) && SortsTo(stages, numbers) && Follows(p, nodes, numbers)
  }

  /** Exactly when a first start-up succeeds, and how it ends otherwise. */
  ghost predicate StartsWhenDue(nodes: Nodes, graph: Graph, p: Plan, r: StartupResult, end: State) {
    && (r.Started? <==> AllRegistered(nodes) && Acyclic(graph) && forall n :: n in nodes ==> p.env(n).ComesUp?)
    && (!r.NotResolved? ==> WellPlanned(p) && EndsAsPlanned(p, end))
    && (r.StageFailed? ==> end.verdict == Aborted && forall f :: f in r.failed <==> FailsAt(p, end.stage, f))
  }

  /** The failures of an aborted run are the services of its last stage bound to fail. */
  lemma FailedAtLast(p: Plan, s: State, f: Name)
    requires Invariant(p, s) && s.verdict == Aborted
    ensures f in Failures(s) <==> FailsAt(p, s.stage, f)
  {
    assert f in s.tasks <==> f in StageTasks(p, s.stage);
    if f in p.level { assert Consistent(p, s, f); }
  }

  lemma BareInFirst(p: Plan, nodes: Nodes, numbers: seq<nat>)
    requires Follows(p, nodes, numbers) && Increasing(numbers)
    requires forall n :: n in nodes && Bare(nodes, n) ==> nodes[n].stage == Some(0)
    ensures BareAtOnce(p)
  {
    forall n | n in p.level && n in p.deps && RequiredNames(p.deps[n]) !! p.deps.Keys ensures p.level[n] == 0 {
      assert Bare(nodes, n);
      assert nodes[n].stage == Some(0);
      assert forall i :: 0 < i < |numbers| ==> numbers[0] < numbers[i];
    }
  }

  /** Some service was rejected as reported, or all were accepted and left a cycle. */
  ghost predicate ReasonRight(nodes0: Nodes, graph0: Graph, graph: Graph, reason: Resolution) {
    if reason.MissingRequired? || reason.EdgeAlreadyGone?
    then RejectedAs(nodes0, graph0, Some(reason))
    else Accepted(nodes0, graph0, graph) && !Acyclic(graph)
  }

  lemma NothingSubstituted(nodes0: Nodes, graph0: Graph, graph: Graph)
    requires AllRegistered(nodes0) && graph0.Keys <= nodes0.Keys
    requires graph.Keys <= nodes0.Keys && Accepted(nodes0, graph0, graph)
    ensures forall s :: Succ(graph, s) == Succ(graph0, s)
  {
    forall s ensures Succ(graph, s) == Succ(graph0, s) {
      if s in nodes0 { NothingToSubstitute(nodes0[s].dependencies, Succ(graph0, s), nodes0.Keys); }
    }
  }

  lemma StartupVerdict(nodes: Nodes, graph: Graph, p: Plan, schedule: seq<Label>, r: StartupResult, end: State)
    requires WellPlanned(p) && RunsTo(p, State(0, map[], map[], map[], map[], map[], Running), schedule, r, end)
    requires p.deps.Keys == nodes.Keys && forall n :: n in p.deps ==> p.deps[n] == nodes[n].dependencies
    requires AllRegistered(nodes) ==> Acyclic(graph)
    ensures StartsWhenDue(nodes, graph, p, r, end)
  {
    RunEndsAsPlanned(p, schedule);
    UpExactlyWhen(p, schedule);
    EveryRun(p, schedule);
    if r.StageFailed? {
      forall f ensures f in r.failed <==> FailsAt(p, end.stage, f) { FailedAtLast(p, end, f); }
    }
    assert AllRegistered(nodes) <==> forall n :: n in p.deps ==> RequiredNames(p.deps[n]) <= p.deps.Keys;
  }

  ghost predicate SortsTo(stages: Stages, numbers: seq<nat>) {
    Increasing(numbers) && forall k :: k in numbers <==> k in stages
  }

  /** The plan of a successful resolution follows its stages, and is well planned if the
      graph had all edges between registered services. */
  lemma ResolvedPlan(nodes0: Nodes, graph0: Graph, nodes: Nodes, graph: Graph, stages: Stages,
                     order: seq<Name>, deps: map<Name, seq<ServiceDependency>>, numbers: seq<nat>,
                     env: Name -> InitOutcome)
    requires deps.Keys == nodes.Keys && forall n :: n in deps ==> deps[n] == nodes[n].dependencies
    requires SameServices(nodes0, nodes) && EdgesToRegistered(graph0, graph, nodes.Keys)
    requires WellStaged(nodes0, nodes, graph, stages, order) && SortsTo(stages, numbers)
    ensures Follows(PlanOf(deps, stages, numbers, env), nodes, numbers)
    ensures Covers(nodes0, graph0) ==>
              var p := PlanOf(deps, stages, numbers, env);
              WellPlanned(p) && LevelsByChains(p, graph, order)
  {
    PlanFollows(nodes, deps, stages, numbers, env);
    if Covers(nodes0, graph0) {
      assert Covers(nodes0, graph);
      PlanIsWell(PlanOf(deps, stages, numbers, env), nodes, numbers);
      ChainsOrderLevels(PlanOf(deps, stages, numbers, env), nodes, numbers, graph, order);
    }
  }

  /** The current Required dependencies among the services of a plan. */
  function CurrentOf(deps: map<Name, seq<ServiceDependency>>): Graph {
    map s | s in deps :: set n | n in RequiredNames(deps[s]) && n in deps
  }

  /** Levels order the services as the lengths of their longest mixed chains do. */
  ghost predicate LevelsByChains(p: Plan, edges: Graph, order: seq<Name>) {
    forall a, b :: a in p.level && b in p.level ==>
      (p.level[b] < p.level[a] <==> LongerFrom(Wiring(CurrentOf(p.deps), edges, order), a, b))
  }

  lemma ChainsOrderLevels(p: Plan, nodes: Nodes, numbers: seq<nat>, graph: Graph, order: seq<Name>)
    requires Follows(p, nodes, numbers) && Increasing(numbers) && StagesAreMixed(nodes, graph, order)
    ensures LevelsByChains(p, graph, order)
  {
    assert CurrentOf(p.deps) == Current(nodes);
    forall a, b | a in p.level && b in p.level
      ensures p.level[b] < p.level[a] <==> LongerFrom(Wiring(CurrentOf(p.deps), graph, order), a, b)
    {
      LevelOrder(p, nodes, numbers, b, a);
      LongerMeans(WiringOf(nodes, graph, order), a, nodes[a].stage.value, b, nodes[b].stage.value);
    }
  }

  /** For each failure, exactly the services with a chain of edges to it. */
  ghost predicate Impacts(failures: seq<Name>, impacted: map<Name, set<Name>>, reverse: Graph) {
    && (forall f :: f in failures <==> f in impacted)
    && (forall f, s :: f in impacted ==> (s in impacted[f] <==> Reaches(reverse, f, s)))
  }

  function StartFrom(p: Plan, records: State): State {
    EnterStage(p, records, 0)
  }

  /** `schedule` takes the plan from the given records to the state `end`, which is over
      in the way that `r` says. */
  ghost predicate RunsTo(p: Plan, records: State, schedule: seq<Label>, r: StartupResult, end: State) {
    && Run(p, StartFrom(p, records), schedule) == Some(end)
    && (if r.StageFailed? then end.verdict == Aborted && forall n :: n in r.failed <==> n in Failures(end)
        else r.Started? && end.verdict == Up)
  }

  lemma StageNames(p: Plan, nodes: Nodes, stages: Stages, numbers: seq<nat>, i: nat)
    requires StagesList(stages, nodes, nodes.Keys)
    requires SortsTo(stages, numbers) && Follows(p, nodes, numbers) && i < |numbers|
    ensures numbers[i] in stages && NoDuplicates(stages[numbers[i]])
    ensures forall n :: n in stages[numbers[i]] <==> n in StageTasks(p, i)
    ensures forall n :: n in stages[numbers[i]] ==> n in nodes
  {
    forall n
      ensures n in stages[numbers[i]] <==> n in StageTasks(p, i)
      ensures n in stages[numbers[i]] ==> n in nodes
    {
      assert n in stages[numbers[i]] <==> ListedAt(stages, n, numbers[i]);
      if ListedAt(stages, n, numbers[i]) {
        assert n in nodes.Keys && numbers[p.level[n]] == numbers[i];
      }
      if n in StageTasks(p, i) {
        assert n in nodes.Keys && nodes[n].stage == Some(numbers[i]);
      }
    }
  }

  /** A stage about to run. */
  ghost predicate AtStage(p: Plan, s: State) {
    s.verdict == Running && s.stage < p.height && s.tasks == StageTasks(p, s.stage)
  }

  /** Where the end of stage `k` leaves the start-up: stopped by exactly the named
      failures, about to run the next stage, or up. */
  ghost predicate AfterStage(p: Plan, k: nat, s: State, failures: seq<Name>) {
    if failures != [] then s.verdict == Aborted && s.stage == k && forall n :: n in failures <==> n in Failures(s)
    else s.stage == k + 1 && if k + 1 < p.height then AtStage(p, s) else s.verdict == Up
  }

  lemma GatherOutcome(p: Plan, s: State, failures: seq<Name>)
    requires s.verdict == Running && (failures == [] <==> Failures(s) == map[])
    requires forall n :: n in failures <==> n in Failures(s)
    ensures AfterStage(p, s.stage, GatherStep(p, s), failures)
    ensures var s' := GatherStep(p, s);
            && s'.services == s.services && s'.status == s.status && s'.injected == s.injected
            && s'.errors == s.errors + Failures(s)
  {
    assert failures != [] ==> Failures(GatherStep(p, s)) == Failures(s);
    assert Failures(s) == map[] ==> s.errors + Failures(s) == s.errors;
  }

  function FailuresAmong(s: State, names: seq<Name>): map<Name, Failure> {
    map n | n in names && n in Failures(s) :: Failures(s)[n]
  }

  lemma FailuresOneMore(s: State, names: seq<Name>, i: nat)
    requires i < |names|
    ensures s.errors + FailuresAmong(s, names[..i + 1])
         == if names[i] in Failures(s) then (s.errors + FailuresAmong(s, names[..i]))[names[i] := Failures(s)[names[i]]]
            else s.errors + FailuresAmong(s, names[..i])
    ensures FailuresAmong(s, names[..i + 1]).Keys
         == FailuresAmong(s, names[..i]).Keys + if names[i] in Failures(s) then {names[i]} else {}
  {
    assert names[..i + 1] == names[..i] + [names[i]];
  }

  lemma AllFailures(s: State, names: seq<Name>)
    requires forall n :: n in s.tasks ==> n in names
    ensures FailuresAmong(s, names) == Failures(s)
  {
  }

  ghost predicate Touched(s: State, n: Name) {
    n in s.status || n in s.services
  }

  /** What a failed start-up has touched: everything up to the failing stage, and nothing
      beyond it. */
  lemma TouchedExactlyWhen(p: Plan, nodes: Nodes, graph: Graph, r: StartupResult, end: State, f: Name, n: Name)
    requires StartsWhenDue(nodes, graph, p, r, end) && r.StageFailed?
    requires f in r.failed && n in p.deps
    ensures f in p.level && n in p.level && (Touched(end, n) <==> p.level[n] <= p.level[f])
  {
    assert FailsAt(p, end.stage, f);
    assert Get(end.status, n) == FinalStatus(p, end.stage, n);
    assert Get(end.services, n) == FinalInstance(p, end.stage, n);
  }

  // ---------------------------------------------------------------- from registrations to verdict

  datatype Registration = Registration(name: Name, dependencies: seq<ServiceDependency>)

  /** The dependencies each name was last registered with. */
  function Latest(registrations: seq<Registration>): map<Name, seq<ServiceDependency>> {
    if registrations == [] then map[]
    else
      var r := registrations[|registrations| - 1];
      Latest(registrations[..|registrations| - 1])[r.name := r.dependencies]
  }

  /** The Required dependencies a name was ever registered with. */
  function EverRequired(registrations: seq<Registration>, s: Name): set<Name> {
    if registrations == [] then {}
    else
      var r := registrations[|registrations| - 1];
      EverRequired(registrations[..|registrations| - 1], s) + if r.name == s then RequiredNames(r.dependencies) else {}
  }

  function EdgesOf(registrations: seq<Registration>): Graph {
    map s | s in Latest(registrations) :: EverRequired(registrations, s)
  }

  /** The names in the order of their first registration. */
  function FirstOrder(registrations: seq<Registration>): seq<Name> {
    if registrations == [] then []
    else
      var before, r := registrations[..|registrations| - 1], registrations[|registrations| - 1];
      if r.name in Latest(before) then FirstOrder(before) else FirstOrder(before) + [r.name]
  }

  function WiringFrom(registrations: seq<Registration>): Wiring {
    Wiring(CurrentOf(Latest(registrations)), EdgesOf(registrations), FirstOrder(registrations))
  }

  lemma OneMoreOrdered(registrations: seq<Registration>, r: Registration)
    ensures FirstOrder(registrations + [r])
         == if r.name in Latest(registrations) then FirstOrder(registrations) else FirstOrder(registrations) + [r.name]
  {
    assert (registrations + [r])[..|registrations|] == registrations;
  }

  lemma OneMoreRegistered(registrations: seq<Registration>, r: Registration, s: Name)
    ensures Latest(registrations + [r]) == Latest(registrations)[r.name := r.dependencies]
    ensures EverRequired(registrations + [r], s)
         == EverRequired(registrations, s) + if r.name == s then RequiredNames(r.dependencies) else {}
  {
    assert (registrations + [r])[..|registrations|] == registrations;
  }

  lemma {:induction false} OnlyRegisteredRequire(registrations: seq<Registration>, s: Name)
    requires s !in Latest(registrations)
    ensures EverRequired(registrations, s) == {}
    decreases |registrations|
  {
    if registrations != [] {
      OnlyRegisteredRequire(registrations[..|registrations| - 1], s);
    }
  }

  /** Every Required dependency of every service is registered, nothing that was ever
      required closes a cycle, and every initialisation comes up. */
  ghost predicate CanStart(registrations: seq<Registration>, env: Name -> InitOutcome) {
    var deps := Latest(registrations);
    && (forall n :: n in deps ==> RequiredNames(deps[n]) <= deps.Keys && env(n).ComesUp?)
    && Acyclic(EdgesOf(registrations))
  }

  ghost predicate NothingMissing(registrations: seq<Registration>) {
    forall n :: n in Latest(registrations) ==> RequiredNames(Latest(registrations)[n]) <= Latest(registrations).Keys
  }

  /** No name has been registered with a Required dependency that it has no more. */
  ghost predicate NothingStale(registrations: seq<Registration>) {
    forall n :: n in Latest(registrations) ==> EverRequired(registrations, n) == RequiredNames(Latest(registrations)[n])
  }

  ghost predicate DistinctNames(registrations: seq<Registration>) {
    forall i, j :: 0 <= i < j < |registrations| ==> registrations[i].name != registrations[j].name
  }

  lemma {:induction false} NotRegistered(registrations: seq<Registration>, n: Name)
    requires forall i :: 0 <= i < |registrations| ==> registrations[i].name != n
    ensures n !in Latest(registrations)
    decreases |registrations|
  {
    if registrations != [] { NotRegistered(registrations[..|registrations| - 1], n); }
  }

  /** Distinct registrations leave no stale edge. */
  lemma {:induction false} DistinctNothingStale(registrations: seq<Registration>)
    requires DistinctNames(registrations)
    ensures NothingStale(registrations)
    decreases |registrations|
  {
    if registrations != [] {
      var before, r := registrations[..|registrations| - 1], registrations[|registrations| - 1];
      DistinctNothingStale(before);
      NotRegistered(before, r.name);
      OnlyRegisteredRequire(before, r.name);
    }
  }

  /** Definitions, edges and order are those of the registrations. */
  ghost predicate FromRegistrations(deps: map<Name, seq<ServiceDependency>>, graph: Graph, order: seq<Name>,
                                    registrations: seq<Registration>) {
    && deps == Latest(registrations) && order == FirstOrder(registrations)
    && forall s :: Succ(graph, s) == EverRequired(registrations, s)
  }

  lemma OneMoreFrom(deps: map<Name, seq<ServiceDependency>>, graph: Graph, order: seq<Name>,
                    graph': Graph, order': seq<Name>, registrations: seq<Registration>, i: nat)
    requires i < |registrations| && FromRegistrations(deps, graph, order, registrations[..i])
    requires Succ(graph', registrations[i].name)
          == Succ(graph, registrations[i].name) + RequiredNames(registrations[i].dependencies)
    requires forall s :: s != registrations[i].name ==> Succ(graph', s) == Succ(graph, s)
    requires order' == if registrations[i].name in deps then order else order + [registrations[i].name]
    ensures FromRegistrations(deps[registrations[i].name := registrations[i].dependencies], graph', order',
                              registrations[..i + 1])
  {
    var r := registrations[i];
    assert registrations[..i + 1] == registrations[..i] + [r];
    OneMoreOrdered(registrations[..i], r);
    OneMoreRegistered(registrations[..i], r, r.name);
    forall s ensures Succ(graph', s) == EverRequired(registrations[..i + 1], s) {
      OneMoreRegistered(registrations[..i], r, s);
    }
  }

  method RegisterAll(registrations: seq<Registration>) returns (registry: EnhancedServiceRegistry)
    ensures fresh(registry) && fresh(registry.resolver) && registry.Valid() && registry.Untouched()
    ensures Strict(registry.resolver.nodes, registry.resolver.graph)
    ensures FromRegistrations(registry.definitions, registry.resolver.graph, registry.resolver.order, registrations)
  {
    registry := new EnhancedServiceRegistry();
    for i := 0 to |registrations|
      invariant fresh(registry) && fresh(registry.resolver) && registry.Valid() && registry.Untouched()
      invariant Strict(registry.resolver.nodes, registry.resolver.graph)
      invariant FromRegistrations(registry.definitions, registry.resolver.graph, registry.resolver.order,
                                  registrations[..i])
    {
      var r := registrations[i];
      ghost var deps, graph, order := registry.definitions, registry.resolver.graph, registry.resolver.order;
      registry.RegisterService(r.name, r.dependencies);
      OneMoreFrom(deps, graph, order, registry.resolver.graph, registry.resolver.order, registrations, i);
    }
    assert registrations[..|registrations|] == registrations;
  }

  /** From any sequence of registrations, repeated names included, the start-up succeeds
      exactly when it can, and every service is HEALTHY then. If it gets as far as starting
      services it ends as planned; if a stage fails, it names exactly the services of that
      stage bound to fail, and has touched exactly the services up to that stage. With no
      Required dependency missing it reports as impacted exactly the services with a chain
      of edges to the failed one; it has touched a service if and only if no mixed chain from
      it is longer than all those from the failed one; and with no stale edge besides, it has
      touched none of the impacted ones. */
  method RegisterAndStart(registrations: seq<Registration>, env: Name -> InitOutcome)
    returns (r: StartupResult, ghost p: Plan, ghost end: State)
    ensures r.Started? <==> CanStart(registrations, env)
    ensures !r.NotResolved? ==> WellPlanned(p) && BareAtOnce(p) && EndsAsPlanned(p, end)
    ensures p.deps == Latest(registrations) && p.env == env
    ensures r.Started? ==>
              forall n :: n in Latest(registrations) ==> HasService(end, n) && end.services[n] == env(n).instance
    ensures r.StageFailed? ==> forall f :: f in r.failed <==> FailsAt(p, end.stage, f)
    ensures r.StageFailed? ==> forall n :: n in Latest(registrations) ==> (Touched(end, n) <==> p.level[n] <= end.stage)
    ensures NothingMissing(registrations) ==> (r.NotResolved? <==> !Acyclic(EdgesOf(registrations)))
    ensures r.StageFailed? && NothingMissing(registrations) ==>
              ReportsImpacted(registrations, r) && TouchedByChains(registrations, r, end)
    ensures r.StageFailed? && NothingMissing(registrations) && NothingStale(registrations) ==>
              NoneImpactedTouched(r, end)
  {
    var registry := RegisterAll(registrations);
    ghost var nodes, graph := registry.resolver.nodes, registry.resolver.graph;
    ghost var schedule;
    r, p, schedule, end := registry.StartupAll(env);
    VerdictOnRegistrations(registrations, nodes, graph, p, r, end);
    if r.Started? { AllHealthy(p, end); }
    if r.StageFailed? {
      var resolver := registry.resolver;
      FailureOnRegistrations(registrations, nodes, graph, resolver.graph, resolver.reverse, p, r, end);
    }
  }

  lemma FailureOnRegistrations(registrations: seq<Registration>, nodes0: Nodes, graph0: Graph, graph: Graph,
                               reverse: Graph, p: Plan, r: StartupResult, end: State)
    requires StartsWhenDue(nodes0, graph0, p, r, end) && r.StageFailed?
    requires Impacts(r.failed, r.impacted, reverse) && Transposed(graph, reverse) && Accepted(nodes0, graph0, graph)
    requires graph0.Keys <= nodes0.Keys && graph.Keys <= nodes0.Keys && nodes0.Keys == Latest(registrations).Keys
    requires forall n :: n in nodes0 ==> nodes0[n].dependencies == Latest(registrations)[n]
    requires forall s :: Succ(graph0, s) == EverRequired(registrations, s)
    requires p.deps == Latest(registrations) && LevelsByChains(p, graph, FirstOrder(registrations))
    ensures forall n :: n in Latest(registrations) ==> n in p.level && (Touched(end, n) <==> p.level[n] <= end.stage)
    ensures NothingMissing(registrations) ==>
              ReportsImpacted(registrations, r) && TouchedByChains(registrations, r, end)
    ensures NothingMissing(registrations) && NothingStale(registrations) ==> NoneImpactedTouched(r, end)
  {
    TouchedUpTo(p, nodes0, graph0, r, end);
    if NothingMissing(registrations) {
      ImpactOnRegistrations(registrations, nodes0, graph0, graph, reverse, p, r, end);
      TouchOnRegistrations(registrations, nodes0, graph0, graph, p, r, end);
    }
  }

  /** A service has been touched unless some mixed chain from it is longer than all those
      from a failed one. */
  ghost predicate TouchedByChains(registrations: seq<Registration>, r: StartupResult, end: State)
    requires r.StageFailed?
  {
    forall f, n :: f in r.failed && n in Latest(registrations) ==>
      (Touched(end, n) <==> !LongerFrom(WiringFrom(registrations), n, f))
  }

  lemma TouchOnRegistrations(registrations: seq<Registration>, nodes0: Nodes, graph0: Graph, graph: Graph,
                             p: Plan, r: StartupResult, end: State)
    requires r.StageFailed? && NothingMissing(registrations) && Accepted(nodes0, graph0, graph)
    requires graph0.Keys <= nodes0.Keys && graph.Keys <= nodes0.Keys && nodes0.Keys == Latest(registrations).Keys
    requires forall n :: n in nodes0 ==> nodes0[n].dependencies == Latest(registrations)[n]
    requires forall s :: Succ(graph0, s) == EverRequired(registrations, s)
    requires p.deps == Latest(registrations) && LevelsByChains(p, graph, FirstOrder(registrations))
    requires forall f :: f in r.failed ==> FailsAt(p, end.stage, f)
    requires forall n :: n in p.deps ==> n in p.level && (Touched(end, n) <==> p.level[n] <= end.stage)
    ensures TouchedByChains(registrations, r, end)
  {
    NothingSubstituted(nodes0, graph0, graph);
    EdgesAreEver(registrations, graph);
    var w, w' := Wiring(CurrentOf(p.deps), graph, FirstOrder(registrations)), WiringFrom(registrations);
    forall f, n | f in r.failed && n in Latest(registrations) ensures Touched(end, n) <==> !LongerFrom(w', n, f) {
      assert FailsAt(p, end.stage, f) && n in p.deps;
      assert p.level[f] < p.level[n] <==> LongerFrom(w, n, f);
      if LongerFrom(w, n, f) { SameLonger(w, w', n, f); }
      if LongerFrom(w', n, f) { SameLonger(w', w, n, f); }
    }
  }

  /** Each failed service with exactly the services that have a chain of edges to it. */
  ghost predicate ReportsImpacted(registrations: seq<Registration>, r: StartupResult)
    requires r.StageFailed?
  {
    && (forall f :: f in r.failed <==> f in r.impacted)
    && (forall f, n :: f in r.impacted ==> (n in r.impacted[f] <==> Reaches(EdgesOf(registrations), n, f)))
  }

  ghost predicate NoneImpactedTouched(r: StartupResult, end: State)
    requires r.StageFailed?
  {
    forall f, n :: f in r.impacted && n in r.impacted[f] ==> !Touched(end, n)
  }

  lemma TouchedUpTo(p: Plan, nodes: Nodes, graph: Graph, r: StartupResult, end: State)
    requires StartsWhenDue(nodes, graph, p, r, end) && r.StageFailed?
    ensures forall n :: n in p.deps ==> n in p.level && (Touched(end, n) <==> p.level[n] <= end.stage)
  {
    var f :| FailsAt(p, end.stage, f);
    forall n | n in p.deps ensures n in p.level && (Touched(end, n) <==> p.level[n] <= end.stage) {
      TouchedExactlyWhen(p, nodes, graph, r, end, f, n);
    }
  }

  /** Along edges that are current dependencies, whatever leads to a service is planned
      after it. */
  lemma {:induction false} ChainRises(p: Plan, graph: Graph, q: seq<Name>)
    requires WellPlanned(p) && Walk(graph, q) && |q| > 1 && q[|q| - 1] in p.level
    requires forall s, d :: d in Succ(graph, s) ==> s in p.level && s in p.deps && d in RequiredNames(p.deps[s])
    ensures q[0] in p.level && p.level[q[|q| - 1]] < p.level[q[0]]
    decreases |q|
  {
    assert q[1] in Succ(graph, q[0]);
    if |q| > 2 {
      WalkSlice(graph, q, 1, |q|);
      ChainRises(p, graph, q[1..]);
    }
  }

  lemma ImpactOnRegistrations(registrations: seq<Registration>, nodes0: Nodes, graph0: Graph, graph: Graph,
                              reverse: Graph, p: Plan, r: StartupResult, end: State)
    requires r.StageFailed? && Impacts(r.failed, r.impacted, reverse) && Transposed(graph, reverse)
    requires NothingMissing(registrations) && Accepted(nodes0, graph0, graph)
    requires graph0.Keys <= nodes0.Keys && graph.Keys <= nodes0.Keys && nodes0.Keys == Latest(registrations).Keys
    requires forall n :: n in nodes0 ==> nodes0[n].dependencies == Latest(registrations)[n]
    requires forall s :: Succ(graph0, s) == EverRequired(registrations, s)
    requires p.deps == Latest(registrations) && WellPlanned(p)
    requires forall f :: f in r.failed ==> FailsAt(p, end.stage, f)
    requires forall n :: n in p.deps ==> n in p.level && (Touched(end, n) <==> p.level[n] <= end.stage)
    ensures ReportsImpacted(registrations, r)
    ensures NothingStale(registrations) ==> NoneImpactedTouched(r, end)
  {
    NothingSubstituted(nodes0, graph0, graph);
    ImpactOnEdges(registrations, graph, reverse, p, r, end);
  }

  lemma ImpactOnEdges(registrations: seq<Registration>, graph: Graph, reverse: Graph, p: Plan, r: StartupResult,
                      end: State)
    requires r.StageFailed? && Impacts(r.failed, r.impacted, reverse) && Transposed(graph, reverse)
    requires forall s :: Succ(graph, s) == EverRequired(registrations, s)
    requires p.deps == Latest(registrations) && WellPlanned(p)
    requires forall f :: f in r.failed ==> FailsAt(p, end.stage, f)
    requires forall n :: n in p.deps ==> n in p.level && (Touched(end, n) <==> p.level[n] <= end.stage)
    ensures ReportsImpacted(registrations, r)
    ensures NothingStale(registrations) ==> NoneImpactedTouched(r, end)
  {
    var edges := EdgesOf(registrations);
    EdgesAreEver(registrations, graph);
    forall f, n | f in r.impacted ensures n in r.impacted[f] <==> Reaches(edges, n, f) {
      if Reaches(edges, n, f) { ReachesTransposed(edges, reverse, n, f); }
      if Reaches(reverse, f, n) { ReachesTransposed(reverse, edges, f, n); }
    }
    if NothingStale(registrations) {
      forall f, n | f in r.impacted && n in r.impacted[f] ensures !Touched(end, n) {
        assert f in r.failed && FailsAt(p, end.stage, f);
        var q :| WalkBetween(edges, n, f, q) && |q| > 1;
        CurrentEdges(registrations, p);
        ChainRises(p, edges, q);
      }
    }
  }

  lemma CurrentEdges(registrations: seq<Registration>, p: Plan)
    requires p.deps == Latest(registrations) && WellPlanned(p) && NothingStale(registrations)
    ensures forall s, d :: d in Succ(EdgesOf(registrations), s) ==>
              s in p.level && s in p.deps && d in RequiredNames(p.deps[s])
  {
  }

  lemma EdgesAreEver(registrations: seq<Registration>, graph: Graph)
    requires forall s :: Succ(graph, s) == EverRequired(registrations, s)
    ensures forall s :: Succ(EdgesOf(registrations), s) == Succ(graph, s)
  {
    forall s ensures Succ(EdgesOf(registrations), s) == Succ(graph, s) {
      if s !in Latest(registrations) { OnlyRegisteredRequire(registrations, s); }
    }
  }

  lemma VerdictOnRegistrations(registrations: seq<Registration>, nodes: Nodes, graph: Graph, p: Plan,
                               r: StartupResult, end: State)
    requires StartsWhenDue(nodes, graph, p, r, end)
    requires nodes.Keys == Latest(registrations).Keys
    requires forall n :: n in nodes ==> nodes[n].dependencies == Latest(registrations)[n]
    requires forall s :: Succ(graph, s) == EverRequired(registrations, s)
    ensures r.Started? <==> CanStart(registrations, p.env)
    ensures Acyclic(EdgesOf(registrations)) <==> Acyclic(graph)
  {
    EdgesAreEver(registrations, graph);
    SameEdgesSameCycles(EdgesOf(registrations), graph);
  }

  lemma AllHealthy(p: Plan, end: State)
    requires WellPlanned(p) && EndsAsPlanned(p, end) && end.verdict == Up
    ensures forall n :: n in p.deps ==> HasService(end, n) && end.services[n] == p.env(n).instance
  {
    forall n | n in p.deps ensures HasService(end, n) && end.services[n] == p.env(n).instance {
      assert !FailsAt(p, p.level[n], n);
      assert Get(end.status, n) == FinalStatus(p, end.stage, n);
      assert Get(end.services, n) == FinalInstance(p, end.stage, n);
    }
  }

  // ---------------------------------------------------------------- a fallback's failure

  /** With a dependency missing, an impacted service can have been started: when the
      fallback of `service` fails, `service` is reported as impacted and has itself been
      started, and failed, in the same stage. */
  method FallbackImpacted(service: Name, missing: Name, fallback: Name, env: Name -> InitOutcome)
    returns (r: StartupResult, ghost end: State)
    requires Different(service, missing, fallback) && fallback != "" && !env(fallback).ComesUp?
    ensures r.StageFailed? && fallback in r.failed && fallback in r.impacted && service in r.impacted[fallback]
    ensures Touched(end, service) && Get(end.status, service) == Some(Failed)
  {
    var registry := RegisterPairToStart(service, missing, fallback);
    ghost var nodes, graph := registry.resolver.nodes, registry.resolver.graph;
    ghost var p, schedule;
    r, p, schedule, end := registry.StartupAll(env);
    PairFails(nodes, graph, registry.resolver.graph, p, r, end, service, missing, fallback);
    ReachesStep(registry.resolver.reverse, fallback, service);
  }

  method RegisterPairToStart(service: Name, missing: Name, fallback: Name) returns (registry: EnhancedServiceRegistry)
    requires Different(service, missing, fallback) && fallback != ""
    ensures fresh(registry) && fresh(registry.resolver) && registry.Valid() && registry.Untouched()
    ensures FallbackPair(registry.resolver.nodes, registry.resolver.graph, service, missing, fallback)
    ensures Covers(registry.resolver.nodes, registry.resolver.graph)
  {
    registry := new EnhancedServiceRegistry();
    OneRequired(NeedsOr(missing, fallback));
    registry.RegisterService(service, [NeedsOr(missing, fallback)]);
    OneKey(registry.resolver.graph, service, {missing});
    ghost var g := registry.resolver.graph;
    assert RequiredNames([]) == {};
    registry.RegisterService(fallback, []);
    SameGraph(g, registry.resolver.graph);
  }

  lemma PairFails(nodes: Nodes, graph: Graph, graph': Graph, p: Plan, r: StartupResult, end: State,
                  service: Name, missing: Name, fallback: Name)
    requires FallbackPair(nodes, graph, service, missing, fallback) && graph'.Keys == graph.Keys
    requires r.NotResolved? ==> ReasonRight(nodes, graph, graph', r.reason)
    requires !r.NotResolved? ==> Accepted(nodes, graph, graph') && BareAtOnce(p)
    requires StartsWhenDue(nodes, graph, p, r, end) && !p.env(fallback).ComesUp?
    requires p.deps.Keys == nodes.Keys && forall n :: n in p.deps ==> p.deps[n] == nodes[n].dependencies
    ensures r.StageFailed? && fallback in r.failed && fallback in Succ(graph', service)
    ensures Touched(end, service) && Get(end.status, service) == Some(Failed)
  {
    var reason := if r.NotResolved? then r.reason else UnexpectedCycle;
    PairResolved(nodes, graph, graph', reason, service, missing, fallback);
    OneEdgeAcyclic(service, fallback);
    OneRequired(NeedsOr(missing, fallback));
    assert service in nodes.Keys && fallback in nodes.Keys && missing !in nodes.Keys;
    FirstUnregisteredMeaning(p.deps[service], p.deps.Keys);
    FirstUnregisteredMeaning(p.deps[fallback], p.deps.Keys);
    assert missing in RequiredNames(nodes[service].dependencies);
    assert FailsAt(p, 0, service) && FailsAt(p, 0, fallback);
    assert end.stage == 0;
    assert Get(end.status, service) == FinalStatus(p, end.stage, service);
  }

  // ---------------------------------------------------------------- a stale edge's failure

  /** A stale edge does it too: when `a` was first registered as needing `b` and then as
      needing nothing, and `b` fails, `a` is reported as impacted and has been started. */
  method StaleImpacted(a: Name, b: Name, env: Name -> InitOutcome) returns (r: StartupResult, ghost end: State)
    requires a != b && !env(b).ComesUp?
    ensures r.StageFailed? && b in r.failed && b in r.impacted && a in r.impacted[b] && Touched(end, a)
  {
    var registrations := [Registration(a, [Needs(b)]), Registration(b, []), Registration(a, [])];
    ReregisteredPair(registrations, a, b);
    ghost var p;
    r, p, end := RegisterAndStart(registrations, env);
    assert b in Latest(registrations).Keys && a in Latest(registrations).Keys;
    assert FailsAt(p, 0, b) && end.stage == 0;
    ReachesStep(EdgesOf(registrations), a, b);
  }

  lemma ReregisteredPair(registrations: seq<Registration>, a: Name, b: Name)
    requires a != b && registrations == [Registration(a, [Needs(b)]), Registration(b, []), Registration(a, [])]
    ensures Latest(registrations) == map[a := [], b := []] && NothingMissing(registrations)
    ensures EdgesOf(registrations) == map[a := {b}, b := {}] && Acyclic(EdgesOf(registrations))
  {
    var one, two := [registrations[0]], [registrations[0], registrations[1]];
    assert registrations == two + [registrations[2]];
    assert two == one + [registrations[1]] && one == [] + [registrations[0]];
    OneRequired(Needs(b));
    assert RequiredNames([]) == {};
    forall s ensures EverRequired(registrations, s) == if s == a then {b} else {} {
      OneMoreRegistered([], registrations[0], s);
      OneMoreRegistered(one, registrations[1], s);
      OneMoreRegistered(two, registrations[2], s);
    }
    OneMoreRegistered([], registrations[0], a);
    OneMoreRegistered(one, registrations[1], a);
    OneMoreRegistered(two, registrations[2], a);
    assert Latest(registrations) == map[a := [], b := []];
    RankedAcyclic(EdgesOf(registrations), map[a := 1, b := 0]);
  }
}
