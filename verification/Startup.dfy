/** Start-up as a state machine. Within a stage every service has its own starter, cut at
    its awaits into atomic segments; a schedule picks which segment runs next. The
    outcome of each service's initialisation is fixed in advance by the environment,
    which loses nothing because a start-up initialises each service at most once. */
module Startup {
  import opened Services

  datatype Instance = Instance(id: int)

  datatype Failure = DependencyUnavailable(dep: Name) | InitFailed(code: int)

  /** What initialisation does: raise, return a service whose own start-up then raises,
      or return a service that comes up. */
  datatype InitOutcome =
    | InitRaises(code: int)
    | StartupRaises(instance: Instance, code: int)
    | ComesUp(instance: Instance)

  datatype Status = Starting | Healthy | Failed

  datatype Phase = Queued | Initialising | Stored | Ended(failure: Option<Failure>)

  datatype Verdict = Running | Up | Aborted

  datatype Plan = Plan(
    deps: map<Name, seq<ServiceDependency>>,
    level: map<Name, nat>,
    height: nat,
    env: Name -> InitOutcome)

  datatype State = State(
    stage: nat,
    tasks: map<Name, Phase>,
    services: map<Name, Instance>,
    status: map<Name, Status>,
    injected: map<Name, map<string, Instance>>,
    errors: map<Name, Failure>,
    verdict: Verdict)

  /** The segments of a starter, and the return of `gather` once every starter ended. */
  datatype Label = Begin(name: Name) | InitReturns(name: Name) | Finishes(name: Name) | GatherReturns

  function Get<K, V>(m: map<K, V>, k: K): Option<V> {
    if k in m then Some(m[k]) else None
  }

  // ---------------------------------------------------------------- one step

  predicate HasService(s: State, n: Name) {
    n in s.services && Get(s.status, n) == Some(Healthy)
  }

  /** The first Required dependency, in order, that is not available. */
  function FirstUnavailable(deps: seq<ServiceDependency>, s: State): Option<Name> {
    if deps == [] then None
    else if deps[0].kind.Required? && !HasService(s, deps[0].name) then Some(deps[0].name)
    else FirstUnavailable(deps[1..], s)
  }

  function Underscored(name: string): string {
    if name == "" then "" else [if name[0] == '-' then '_' else name[0]] + Underscored(name[1..])
  }

  function ParameterName(d: ServiceDependency): string {
    if d.injectAs.Some? && d.injectAs.value != "" then d.injectAs.value else Underscored(d.name)
  }

  /** The keyword a dependency arrives under: the one it names, if that is not empty, and
      else its own name with an underscore for each hyphen. */
  predicate Keyword(d: ServiceDependency, x: string) {
    if d.injectAs.Some? && |d.injectAs.value| > 0 then x == d.injectAs.value
    else |x| == |d.name| && forall i :: 0 <= i < |x| ==> x[i] == if d.name[i] == '-' then '_' else d.name[i]
  }

  lemma {:induction false} UnderscoredMeaning(name: string)
    ensures |Underscored(name)| == |name|
    ensures forall i :: 0 <= i < |name| ==> Underscored(name)[i] == if name[i] == '-' then '_' else name[i]
  {
    if name != "" { UnderscoredMeaning(name[1..]); }
  }

  lemma KeywordMeaning(d: ServiceDependency, x: string)
    ensures Keyword(d, x) <==> x == ParameterName(d)
  {
    UnderscoredMeaning(d.name);
  }

  /** The keyword arguments collected from the first `i` dependencies, of every kind: a
      later one overrides an earlier one with the same parameter name. */
  function Kwargs(deps: seq<ServiceDependency>, i: nat, s: State): map<string, Instance>
    requires i <= |deps|
  {
    if i == 0 then map[]
    else
      var m := Kwargs(deps, i - 1, s);
      var d := deps[i - 1];
      if HasService(s, d.name) then m[ParameterName(d) := s.services[d.name]] else m
  }

  function StageTasks(p: Plan, k: nat): map<Name, Phase> {
    map n | n in p.level && p.level[n] == k :: Queued
  }

  /** Begins stage `k`, or ends the start-up when there is none. */
  function EnterStage(p: Plan, s: State, k: nat): State {
    if k < p.height then s.(stage := k, tasks := StageTasks(p, k))
    else s.(stage := k, tasks := map[], verdict := Up)
  }

  function Failures(s: State): map<Name, Failure> {
    map n | n in s.tasks && s.tasks[n].Ended? && s.tasks[n].failure.Some? :: s.tasks[n].failure.value
  }

  predicate Enabled(p: Plan, s: State, l: Label) {
    s.verdict == Running &&
    match l
    case Begin(n) => n in p.deps && Get(s.tasks, n) == Some(Queued)
    case InitReturns(n) => Get(s.tasks, n) == Some(Initialising)
    case Finishes(n) => Get(s.tasks, n) == Some(Stored)
    case GatherReturns => forall n :: n in s.tasks ==> s.tasks[n].Ended?
  }

  function End(s: State, n: Name, failure: Option<Failure>): State {
    s.(tasks := s.tasks[n := Ended(failure)],
       status := s.status[n := if failure.None? then Healthy else Failed])
  }

  function MarkStarting(s: State, n: Name): State {
    s.(status := s.status[n := Starting])
  }

  /** From STARTING through the dependency check and injection to the call of the
      initialiser. */
  function BeginStep(p: Plan, s: State, n: Name): State
    requires n in p.deps
  {
    var s' := MarkStarting(s, n);
    var missing := FirstUnavailable(p.deps[n], s');
    if missing.Some? then End(s', n, Some(DependencyUnavailable(missing.value)))
    else s'.(tasks := s.tasks[n := Initialising],
             injected := s.injected[n := Kwargs(p.deps[n], |p.deps[n]|, s')])
  }

  /** The initialiser raised, or its result is stored and its own start-up called. */
  function ReturnStep(p: Plan, s: State, n: Name): State {
    if p.env(n).InitRaises? then End(s, n, Some(InitFailed(p.env(n).code)))
    else s.(tasks := s.tasks[n := Stored], services := s.services[n := p.env(n).instance])
  }

  function FinishStep(p: Plan, s: State, n: Name): State {
    End(s, n, if p.env(n).StartupRaises? then Some(InitFailed(p.env(n).code)) else None)
  }

  /** All starters of the stage are done: record the failures and stop, or go on. */
  function GatherStep(p: Plan, s: State): State {
    if Failures(s) == map[] then EnterStage(p, s, s.stage + 1)
    else s.(errors := s.errors + Failures(s), verdict := Aborted)
  }

  function Step(p: Plan, s: State, l: Label): State
    requires Enabled(p, s, l)
  {
    match l
    case Begin(n) => BeginStep(p, s, n)
    case InitReturns(n) => ReturnStep(p, s, n)
    case Finishes(n) => FinishStep(p, s, n)
    case GatherReturns => GatherStep(p, s)
  }

  /** The state a schedule leads to, if each of its steps is enabled when it is taken. */
  function Run(p: Plan, s: State, schedule: seq<Label>): Option<State>
    decreases |schedule|
  {
    if schedule == [] then Some(s)
    else
      var before := Run(p, s, schedule[..|schedule| - 1]);
      var l := schedule[|schedule| - 1];
      if before.Some? && Enabled(p, before.value, l) then Some(Step(p, before.value, l)) else None
  }

  lemma RunOneMore(p: Plan, s: State, schedule: seq<Label>, l: Label)
    ensures Run(p, s, schedule + [l])
         == if Run(p, s, schedule).Some? && Enabled(p, Run(p, s, schedule).value, l)
            then Some(Step(p, Run(p, s, schedule).value, l)) else None
  {
    assert (schedule + [l])[..|schedule|] == schedule;
  }

  /** A first start-up: nothing is known about any service yet. */
  function FirstStart(p: Plan): State {
    EnterStage(p, State(0, map[], map[], map[], map[], map[], Running), 0)
  }

  // ---------------------------------------------------------------- what must come out

  /** The plan stages every service, below its height, and every registered Required
      dependency strictly before its dependent. */
  ghost predicate WellPlanned(p: Plan) {
    && p.level.Keys == p.deps.Keys
    && (forall n :: n in p.level ==> p.level[n] < p.height)
    && (forall n, d :: n in p.level && d in RequiredNames(p.deps[n]) && d in p.level ==> p.level[d] < p.level[n])
  }

  function FirstUnregistered(deps: seq<ServiceDependency>, registered: set<Name>): Option<Name> {
    if deps == [] then None
    else if deps[0].kind.Required? && deps[0].name !in registered then Some(deps[0].name)
    else FirstUnregistered(deps[1..], registered)
  }

  predicate Blocked(p: Plan, n: Name)
    requires n in p.deps
  {
    FirstUnregistered(p.deps[n], p.deps.Keys).Some?
  }

  /** How the start of `n` must end, whatever the schedule: it fails on its first
      unregistered Required dependency, or as its own initialisation decides. */
  function Outcome(p: Plan, n: Name): Option<Failure>
    requires n in p.deps
  {
    if Blocked(p, n) then Some(DependencyUnavailable(FirstUnregistered(p.deps[n], p.deps.Keys).value))
    else if p.env(n).ComesUp? then None
    else Some(InitFailed(p.env(n).code))
  }

  function PhaseOf(p: Plan, s: State, n: Name): Phase
    requires n in p.level
  {
    if p.level[n] < s.stage then Ended(None)
    else if p.level[n] > s.stage then Queued
    else if n in s.tasks then s.tasks[n] else Queued
  }

  function StatusIn(phase: Phase): Option<Status> {
    match phase
    case Queued => None
    case Initialising => Some(Starting)
    case Stored => Some(Starting)
    case Ended(None) => Some(Healthy)
    case Ended(Some(_)) => Some(Failed)
  }

  function InstanceIn(p: Plan, n: Name, phase: Phase): Option<Instance>
    requires n in p.deps
  {
    if phase.Queued? || phase.Initialising? || Blocked(p, n) || p.env(n).InitRaises? then None
    else Some(p.env(n).instance)
  }

  predicate PhaseFits(p: Plan, n: Name, phase: Phase)
    requires n in p.deps
  {
    match phase
    case Queued => true
    case Initialising => !Blocked(p, n)
    case Stored => !Blocked(p, n) && !p.env(n).InitRaises?
    case Ended(failure) => failure == Outcome(p, n)
  }

  /** One service's records agree with how far its start has got. */
  ghost predicate Consistent(p: Plan, s: State, n: Name)
    requires n in p.level && n in p.deps
  {
    var phase := PhaseOf(p, s, n);
    && PhaseFits(p, n, phase)
    && Get(s.status, n) == StatusIn(phase)
    && Get(s.services, n) == InstanceIn(p, n, phase)
  }

  ghost predicate Invariant(p: Plan, s: State) {
    && p.level.Keys == p.deps.Keys
    && (forall n {:trigger Consistent(p, s, n)} :: n in p.level ==> Consistent(p, s, n))
    && (forall n :: n !in p.level ==> n !in s.status && n !in s.services)
    && (s.verdict != Up ==> s.stage < p.height && s.tasks.Keys == StageTasks(p, s.stage).Keys)
    && (s.verdict == Up ==> s.stage == p.height && s.tasks == map[])
    && (s.verdict == Aborted ==> s.errors == Failures(s) && s.errors != map[])
    && (s.verdict == Aborted ==> forall n :: n in s.tasks ==> s.tasks[n].Ended?)
    && (s.verdict != Aborted ==> s.errors == map[])
  }

  lemma {:induction false} UnavailableMeansUnregistered(deps: seq<ServiceDependency>, s: State, registered: set<Name>)
    requires forall d :: d in RequiredNames(deps) ==> (HasService(s, d) <==> d in registered)
    ensures FirstUnavailable(deps, s) == FirstUnregistered(deps, registered)
    decreases |deps|
  {
    if deps != [] {
      assert deps[0].kind.Required? ==> deps[0].name in RequiredNames(deps);
      forall d | d in RequiredNames(deps[1..]) ensures d in RequiredNames(deps) {
        var x :| x in deps[1..] && x.kind.Required? && x.name == d;
      }
      UnavailableMeansUnregistered(deps[1..], s, registered);
    }
  }

  /** Seen from a starter of the current stage, exactly the services of earlier stages
      are available, unless they share its stage. */
  lemma Available(p: Plan, s: State, n: Name, d: Name)
    requires Invariant(p, s) && s.verdict == Running && n in p.level && p.level[n] == s.stage
    requires d in p.level ==> p.level[d] != s.stage
    ensures HasService(s, d) <==> d in p.level && p.level[d] < s.stage
    ensures HasService(s, d) ==> !p.env(d).InitRaises? && s.services[d] == p.env(d).instance
  {
    if d in p.level {
      assert Consistent(p, s, d);
    }
  }

  /** The dynamic check of a beginning starter sees what the plan decided statically. */
  lemma CheckIsStatic(p: Plan, s: State, n: Name)
    requires WellPlanned(p) && Invariant(p, s) && s.verdict == Running && n in p.level && p.level[n] == s.stage
    ensures FirstUnavailable(p.deps[n], MarkStarting(s, n)) == FirstUnregistered(p.deps[n], p.deps.Keys)
  {
    var s' := MarkStarting(s, n);
    forall d | d in RequiredNames(p.deps[n]) ensures HasService(s', d) <==> d in p.deps.Keys {
      Available(p, s, n, d);
    }
    UnavailableMeansUnregistered(p.deps[n], s', p.deps.Keys);
  }

  /** A step of one starter moves that service's phase and touches no other service. */
  ghost predicate OnlyMoves(p: Plan, s: State, s': State, n: Name) {
    && s'.stage == s.stage && s'.verdict == s.verdict && s'.errors == s.errors && s'.tasks.Keys == s.tasks.Keys
    && (forall m :: m != n ==> Get(s'.tasks, m) == Get(s.tasks, m))
    && (forall m :: m != n ==> Get(s'.status, m) == Get(s.status, m))
    && (forall m :: m != n ==> Get(s'.services, m) == Get(s.services, m))
  }

  lemma BeginMoves(p: Plan, s: State, n: Name)
    requires Enabled(p, s, Begin(n))
    ensures OnlyMoves(p, s, BeginStep(p, s, n), n)
  {
  }

  lemma StarterOnlyMoves(p: Plan, s: State, l: Label)
    requires Enabled(p, s, l) && !l.GatherReturns?
    ensures OnlyMoves(p, s, Step(p, s, l), l.name)
  {
    match l {
      case Begin(n) => BeginMoves(p, s, n);
      case InitReturns(n) => EndMoves(s, n);
      case Finishes(n) => EndMoves(s, n);
    }
  }

  lemma EndMoves(s: State, n: Name)
    requires n in s.tasks
    ensures forall p: Plan, failure :: OnlyMoves(p, s, End(s, n, failure), n)
  {
  }

  lemma BeginFits(p: Plan, s: State, n: Name)
    requires WellPlanned(p) && Invariant(p, s) && Enabled(p, s, Begin(n)) && n in p.level && p.level[n] == s.stage
    ensures Consistent(p, BeginStep(p, s, n), n)
  {
    assert Consistent(p, s, n);
    CheckIsStatic(p, s, n);
  }

  lemma ReturnFits(p: Plan, s: State, n: Name)
    requires Invariant(p, s) && Enabled(p, s, InitReturns(n)) && n in p.level && p.level[n] == s.stage
    ensures Consistent(p, ReturnStep(p, s, n), n)
  {
    assert Consistent(p, s, n);
  }

  lemma FinishFits(p: Plan, s: State, n: Name)
    requires Invariant(p, s) && Enabled(p, s, Finishes(n)) && n in p.level && p.level[n] == s.stage
    ensures Consistent(p, FinishStep(p, s, n), n)
  {
    assert Consistent(p, s, n);
  }

  lemma MovedKeepsInvariant(p: Plan, s: State, s': State, n: Name)
    requires Invariant(p, s) && s.verdict == Running && OnlyMoves(p, s, s', n)
    requires n in p.level && n in p.deps && Consistent(p, s', n)
    ensures Invariant(p, s')
  {
    forall m {:trigger Consistent(p, s', m)} | m in p.level && m != n ensures Consistent(p, s', m) {
      assert Consistent(p, s, m);
      assert Get(s'.tasks, m) == Get(s.tasks, m);
    }
    forall m | m !in p.level ensures m !in s'.status && m !in s'.services {
      assert Get(s'.status, m) == Get(s.status, m) && Get(s'.services, m) == Get(s.services, m);
    }
  }

  lemma StarterKeepsInvariant(p: Plan, s: State, l: Label)
    requires WellPlanned(p) && Invariant(p, s) && Enabled(p, s, l) && !l.GatherReturns?
    ensures Invariant(p, Step(p, s, l))
  {
    assert l.name in s.tasks && l.name in StageTasks(p, s.stage);
    match l {
      case Begin(n) => BeginFits(p, s, n);
      case InitReturns(n) => ReturnFits(p, s, n);
      case Finishes(n) => FinishFits(p, s, n);
    }
    StarterOnlyMoves(p, s, l);
    MovedKeepsInvariant(p, s, Step(p, s, l), l.name);
  }

  lemma StageHealthy(p: Plan, s: State, n: Name)
    requires Invariant(p, s) && Enabled(p, s, GatherReturns)
    requires Failures(s) == map[] && n in p.level && p.level[n] == s.stage
    ensures PhaseOf(p, s, n) == Ended(None)
  {
    assert n in StageTasks(p, s.stage);
    assert n !in Failures(s);
  }

  lemma NextStageRecord(p: Plan, s: State, n: Name)
    requires Invariant(p, s) && Enabled(p, s, GatherReturns) && Failures(s) == map[] && n in p.level
    ensures Consistent(p, EnterStage(p, s, s.stage + 1), n)
  {
    assert Consistent(p, s, n);
    if p.level[n] == s.stage { StageHealthy(p, s, n); }
    assert p.level[n] == s.stage + 1 ==> n in StageTasks(p, s.stage + 1);
  }

  lemma NextStageInvariant(p: Plan, s: State)
    requires Invariant(p, s) && Enabled(p, s, GatherReturns) && Failures(s) == map[]
    ensures Invariant(p, EnterStage(p, s, s.stage + 1))
  {
    var s' := EnterStage(p, s, s.stage + 1);
    forall n {:trigger Consistent(p, s', n)} | n in p.level ensures Consistent(p, s', n) { NextStageRecord(p, s, n); }
  }

  lemma AbortInvariant(p: Plan, s: State)
    requires Invariant(p, s) && Enabled(p, s, GatherReturns) && Failures(s) != map[]
    ensures Invariant(p, GatherStep(p, s))
  {
    var s' := GatherStep(p, s);
    assert map[] + Failures(s) == Failures(s);
    forall n {:trigger Consistent(p, s', n)} | n in p.level ensures Consistent(p, s', n) {
      assert Consistent(p, s, n);
    }
  }

  lemma FirstStartInvariant(p: Plan)
    requires WellPlanned(p)
    ensures Invariant(p, FirstStart(p))
  {
    var s := FirstStart(p);
    forall n {:trigger Consistent(p, s, n)} | n in p.level ensures Consistent(p, s, n) {
      assert p.level[n] == 0 ==> n in StageTasks(p, 0);
    }
  }

  lemma GatherKeepsInvariant(p: Plan, s: State)
    requires Invariant(p, s) && Enabled(p, s, GatherReturns)
    ensures Invariant(p, GatherStep(p, s))
  {
    if Failures(s) == map[] { NextStageInvariant(p, s); } else { AbortInvariant(p, s); }
  }

  lemma StepKeepsInvariant(p: Plan, s: State, l: Label)
    requires WellPlanned(p) && Invariant(p, s) && Enabled(p, s, l)
    ensures Invariant(p, Step(p, s, l))
  {
    if l.GatherReturns? {
      assert Step(p, s, l) == GatherStep(p, s);
      GatherKeepsInvariant(p, s);
    } else {
      StarterKeepsInvariant(p, s, l);
    }
  }

  /** Every point of every schedule of a first start-up satisfies the invariant. */
  lemma {:induction false} EveryRun(p: Plan, schedule: seq<Label>)
    requires WellPlanned(p) && Run(p, FirstStart(p), schedule).Some?
    ensures Invariant(p, Run(p, FirstStart(p), schedule).value)
    decreases |schedule|
  {
    if schedule == [] {
      FirstStartInvariant(p);
    } else {
      var before := Run(p, FirstStart(p), schedule[..|schedule| - 1]).value;
      EveryRun(p, schedule[..|schedule| - 1]);
      StepKeepsInvariant(p, before, schedule[|schedule| - 1]);
    }
  }

  // ---------------------------------------------------------------- theorems over every run

  /** The state a schedule leads to. */
  function Reached(p: Plan, schedule: seq<Label>): State
    requires Run(p, FirstStart(p), schedule).Some?
  {
    Run(p, FirstStart(p), schedule).value
  }

  /** Dependency `i` is the first Required one whose name is not in the set. */
  predicate FirstMissing(deps: seq<ServiceDependency>, names: set<Name>, i: int) {
    && 0 <= i < |deps| && deps[i].kind == Required && deps[i].name !in names
    && forall j :: 0 <= j < i && deps[j].kind == Required ==> deps[j].name in names
  }

  lemma {:induction false} FirstUnregisteredMeaning(deps: seq<ServiceDependency>, registered: set<Name>)
    ensures FirstUnregistered(deps, registered).None? <==> RequiredNames(deps) <= registered
    ensures forall i :: FirstMissing(deps, registered, i) ==> FirstUnregistered(deps, registered) == Some(deps[i].name)
    ensures FirstUnregistered(deps, registered).None? <==>
              forall i :: 0 <= i < |deps| && deps[i].kind == Required ==> deps[i].name in registered
    decreases |deps|
  {
    if deps != [] {
      var rest := deps[1..];
      FirstUnregisteredMeaning(rest, registered);
      assert deps == [deps[0]] + rest;
      assert RequiredNames(deps) == (if deps[0].kind.Required? then {deps[0].name} else {}) + RequiredNames(rest);
      forall i | FirstMissing(deps, registered, i)
        ensures FirstUnregistered(deps, registered) == Some(deps[i].name)
      {
        if i > 0 { assert FirstMissing(rest, registered, i - 1); }
      }
      assert (forall i :: 0 <= i < |deps| && deps[i].kind == Required ==> deps[i].name in registered) <==>
        (deps[0].kind == Required ==> deps[0].name in registered)
        && forall i :: 0 <= i < |rest| && rest[i].kind == Required ==> rest[i].name in registered;
    }
  }

  lemma NoDependencyFailure(p: Plan, s: State, n: Name)
    requires Invariant(p, s) && n in p.deps && !Blocked(p, n)
    ensures n in s.tasks && s.tasks[n].Ended? && s.tasks[n].failure.Some? ==> s.tasks[n].failure.value.InitFailed?
    ensures n in s.errors ==> s.errors[n].InitFailed?
  {
    assert Consistent(p, s, n);
    assert n in s.tasks ==> n in StageTasks(p, s.stage);
  }

  /** If every Required dependency is registered, the dynamic check never trips: at no
      point of any schedule has a starter ended for want of a dependency, and none is
      recorded. */
  lemma CheckNeverTrips(p: Plan, schedule: seq<Label>, n: Name)
    requires WellPlanned(p) && Run(p, FirstStart(p), schedule).Some? && n in p.deps
    requires forall m :: m in p.deps ==> RequiredNames(p.deps[m]) <= p.deps.Keys
    ensures var s := Reached(p, schedule);
            && (n in s.tasks && s.tasks[n].Ended? && s.tasks[n].failure.Some? ==> s.tasks[n].failure.value.InitFailed?)
            && (n in s.errors ==> s.errors[n].InitFailed?)
  {
    EveryRun(p, schedule);
    FirstUnregisteredMeaning(p.deps[n], p.deps.Keys);
    NoDependencyFailure(p, Reached(p, schedule), n);
  }

  /** At every point of every run, whether it goes on to succeed or fail, a HEALTHY
      service is stored and so is each of its Required dependencies, HEALTHY too. */
  lemma HealthyMeansReady(p: Plan, schedule: seq<Label>, n: Name, i: nat)
    requires WellPlanned(p) && Run(p, FirstStart(p), schedule).Some?
    requires n in Reached(p, schedule).status && Reached(p, schedule).status[n] == Healthy
    ensures n in p.deps && n in Reached(p, schedule).services
    ensures i < |p.deps[n]| && p.deps[n][i].kind == Required ==>
              var s, d := Reached(p, schedule), p.deps[n][i].name;
              d in s.services && d in s.status && s.status[d] == Healthy
  {
    EveryRun(p, schedule);
    var s := Reached(p, schedule);
    assert n in p.level;
    assert Consistent(p, s, n);
    if i < |p.deps[n]| && p.deps[n][i].kind == Required {
      var d := p.deps[n][i].name;
      FirstUnregisteredMeaning(p.deps[n], p.deps.Keys);
      assert p.deps[n][i] in p.deps[n] && d in RequiredNames(p.deps[n]);
      assert d in p.level;
      assert Consistent(p, s, d);
    }
  }

  /** That is a property of first start-ups: a second one on the records that a successful
      one left sets a service back to STARTING below a dependent that stays HEALTHY. */
  lemma SecondStartLowers(p: Plan, schedule: seq<Label>, n: Name, d: Name)
    requires WellPlanned(p) && Run(p, FirstStart(p), schedule).Some? && Reached(p, schedule).verdict == Up
    requires n in p.deps && d in p.deps && d in RequiredNames(p.deps[n]) && p.level[d] == 0
    ensures var again := SecondStart(p, schedule);
            && Enabled(p, again, Begin(d))
            && HasService(BeginStep(p, again, d), n) && !HasService(BeginStep(p, again, d), d)
  {
    EveryRun(p, schedule);
    UpIsHealthy(p, Reached(p, schedule), n);
    UpIsHealthy(p, Reached(p, schedule), d);
    assert d in StageTasks(p, 0);
    BeginLowers(p, SecondStart(p, schedule), n, d);
  }

  lemma UpIsHealthy(p: Plan, s: State, n: Name)
    requires WellPlanned(p) && Invariant(p, s) && s.verdict == Up && n in p.deps
    ensures HasService(s, n)
  {
    assert Consistent(p, s, n);
  }

  lemma BeginLowers(p: Plan, s: State, n: Name, d: Name)
    requires d in p.deps && HasService(s, n) && n != d
    ensures HasService(BeginStep(p, s, d), n) && !HasService(BeginStep(p, s, d), d)
  {
  }

  /** A service without registered Required dependencies belongs to the first stage. */
  ghost predicate BareAtOnce(p: Plan) {
    forall n :: n in p.level && n in p.deps && RequiredNames(p.deps[n]) !! p.deps.Keys ==> p.level[n] == 0
  }

  /** A second start-up on the records that the first one left. */
  function SecondStart(p: Plan, schedule: seq<Label>): State
    requires Run(p, FirstStart(p), schedule).Some?
  {
    EnterStage(p, Reached(p, schedule).(verdict := Running), 0)
  }

  /** A HEALTHY service whose Required dependency is not available. */
  ghost predicate Lacks(p: Plan, s: State, n: Name, d: Name) {
    n in p.deps && Get(s.status, n) == Some(Healthy) && d in RequiredNames(p.deps[n]) && !HasService(s, d)
  }

  ghost predicate LacksUnder(p: Plan, start: State, schedule: seq<Label>) {
    Run(p, start, schedule).Some? && exists n, d :: Lacks(p, Run(p, start, schedule).value, n, d)
  }

  /** Some dependency of some service without dependencies of its own. */
  lemma {:induction false} LowestDependency(p: Plan, n: Name) returns (m: Name, d: Name)
    requires WellPlanned(p) && BareAtOnce(p) && forall m :: m in p.deps ==> RequiredNames(p.deps[m]) <= p.deps.Keys
    requires n in p.deps && RequiredNames(p.deps[n]) != {}
    ensures m in p.deps && d in p.deps && d in RequiredNames(p.deps[m]) && p.level[d] == 0
    decreases p.level[n]
  {
    var e :| e in RequiredNames(p.deps[n]);
    assert e in p.deps.Keys;
    if RequiredNames(p.deps[e]) == {} { m, d := n, e; } else { m, d := LowestDependency(p, e); }
  }

  /** Under some schedule a HEALTHY service lacks a Required dependency at some point. */
  ghost predicate CanHarm(p: Plan, start: State) {
    exists schedule :: LacksUnder(p, start, schedule)
  }

  /** After a first start-up that is up, a second one can do harm if and only if any service
      has a Required dependency. */
  lemma SecondStartHarmsExactlyWhen(p: Plan, schedule: seq<Label>)
    requires WellPlanned(p) && BareAtOnce(p)
    requires Run(p, FirstStart(p), schedule).Some? && Reached(p, schedule).verdict == Up
    ensures CanHarm(p, SecondStart(p, schedule)) <==> exists n :: n in p.deps && RequiredNames(p.deps[n]) != {}
  {
    if n :| n in p.deps && RequiredNames(p.deps[n]) != {} { SecondStartHarms(p, schedule, n); }
    if CanHarm(p, SecondStart(p, schedule)) { HarmNeedsDependency(p, SecondStart(p, schedule)); }
  }

  lemma HarmNeedsDependency(p: Plan, start: State)
    requires CanHarm(p, start)
    ensures exists n :: n in p.deps && RequiredNames(p.deps[n]) != {}
  {
    var schedule :| LacksUnder(p, start, schedule);
    var n, d :| Lacks(p, Run(p, start, schedule).value, n, d);
  }

  lemma SecondStartHarms(p: Plan, schedule: seq<Label>, n: Name)
    requires WellPlanned(p) && BareAtOnce(p)
    requires Run(p, FirstStart(p), schedule).Some? && Reached(p, schedule).verdict == Up
    requires n in p.deps && RequiredNames(p.deps[n]) != {}
    ensures CanHarm(p, SecondStart(p, schedule))
  {
    UpExactlyWhen(p, schedule);
    var m, d := LowestDependency(p, n);
    SecondStartLowers(p, schedule, m, d);
    BeginHarms(p, SecondStart(p, schedule), m, d);
  }

  lemma BeginHarms(p: Plan, start: State, n: Name, d: Name)
    requires n in p.deps && d in RequiredNames(p.deps[n]) && Enabled(p, start, Begin(d))
    requires HasService(BeginStep(p, start, d), n) && !HasService(BeginStep(p, start, d), d)
    ensures LacksUnder(p, start, [Begin(d)])
  {
    RunOneMore(p, start, [], Begin(d));
    assert [] + [Begin(d)] == [Begin(d)];
    assert Lacks(p, BeginStep(p, start, d), n, d);
  }

  lemma LaterUntouched(p: Plan, s: State, n: Name)
    requires Invariant(p, s) && n in p.level && p.level[n] > s.stage
    ensures n !in s.status && n !in s.services && n !in s.errors
  {
    assert Consistent(p, s, n);
    assert n in s.tasks ==> n in StageTasks(p, s.stage);
  }

  lemma NotPastFailure(p: Plan, s: State, f: Name)
    requires Invariant(p, s) && f in p.level && f in p.deps && Outcome(p, f).Some?
    ensures s.stage <= p.level[f]
  {
    assert Consistent(p, s, f);
  }

  /** Failure containment: at no point of any schedule has anything in a stage after that
      of a service bound to fail been started, stored or blamed. */
  lemma FailureContained(p: Plan, schedule: seq<Label>, f: Name, n: Name)
    requires WellPlanned(p) && Run(p, FirstStart(p), schedule).Some?
    requires f in p.level && f in p.deps && Outcome(p, f).Some? && n in p.level && p.level[n] > p.level[f]
    ensures n !in Reached(p, schedule).status
    ensures n !in Reached(p, schedule).services && n !in Reached(p, schedule).errors
  {
    EveryRun(p, schedule);
    NotPastFailure(p, Reached(p, schedule), f);
    LaterUntouched(p, Reached(p, schedule), n);
  }

  predicate Started(p: Plan, last: nat, n: Name) {
    n in p.level && n in p.deps && p.level[n] <= last
  }

  function FinalStatus(p: Plan, last: nat, n: Name): Option<Status> {
    if !Started(p, last, n) then None else if Outcome(p, n).None? then Some(Healthy) else Some(Failed)
  }

  function FinalInstance(p: Plan, last: nat, n: Name): Option<Instance> {
    if !Started(p, last, n) || Blocked(p, n) || p.env(n).InitRaises? then None else Some(p.env(n).instance)
  }

  function FinalError(p: Plan, last: nat, n: Name): Option<Failure> {
    if !Started(p, last, n) then None else Outcome(p, n)
  }

  predicate FailsAt(p: Plan, k: nat, n: Name) {
    n in p.level && n in p.deps && p.level[n] == k && Outcome(p, n).Some?
  }

  /** How a finished run looks, said without schedules: no stage before the last one has
      a failure; an aborted run's last stage has one and a successful run has no stage
      left; statuses, stored services and errors are those of each service's outcome. */
  ghost predicate EndsAsPlanned(p: Plan, s: State) {
    && (forall k: nat, n :: k < s.stage ==> !FailsAt(p, k, n))
    && (if s.verdict == Up then s.stage == p.height
        else s.verdict == Aborted && s.stage < p.height && exists n :: FailsAt(p, s.stage, n))
    && (forall n :: Get(s.status, n) == FinalStatus(p, s.stage, n))
    && (forall n :: Get(s.services, n) == FinalInstance(p, s.stage, n))
    && (forall n :: Get(s.errors, n) == FinalError(p, s.stage, n))
  }

  lemma FinishedRecord(p: Plan, s: State, n: Name)
    requires WellPlanned(p) && Invariant(p, s) && s.verdict != Running
    ensures forall k: nat :: k < s.stage ==> !FailsAt(p, k, n)
    ensures Get(s.status, n) == FinalStatus(p, s.stage, n)
    ensures Get(s.services, n) == FinalInstance(p, s.stage, n)
    ensures Get(s.errors, n) == FinalError(p, s.stage, n)
  {
    assert s.verdict == Aborted ==> (n in s.tasks <==> n in StageTasks(p, s.stage));
    if n in p.level {
      assert Consistent(p, s, n);
      FinishedPhase(p, s, n);
    }
  }

  /** A finished run has left no starter under way. */
  lemma FinishedPhase(p: Plan, s: State, n: Name)
    requires WellPlanned(p) && Invariant(p, s) && s.verdict != Running && n in p.level && n in p.deps
    ensures PhaseOf(p, s, n) == if p.level[n] <= s.stage then Ended(Outcome(p, n)) else Queued
    ensures p.level[n] < s.stage ==> Outcome(p, n).None?
    ensures Get(s.errors, n) == if p.level[n] == s.stage then Outcome(p, n) else None
  {
    assert Consistent(p, s, n);
    assert s.verdict == Aborted ==> (n in s.tasks <==> n in StageTasks(p, s.stage));
  }

  lemma FinishedRun(p: Plan, s: State)
    requires WellPlanned(p) && Invariant(p, s) && s.verdict != Running
    ensures EndsAsPlanned(p, s)
  {
    forall k: nat, n | k < s.stage ensures !FailsAt(p, k, n) {
      FinishedRecord(p, s, n);
    }
    forall n
      ensures Get(s.status, n) == FinalStatus(p, s.stage, n)
      ensures Get(s.services, n) == FinalInstance(p, s.stage, n)
      ensures Get(s.errors, n) == FinalError(p, s.stage, n)
    {
      FinishedRecord(p, s, n);
    }
    if s.verdict == Aborted {
      SomeFailure(p, s);
    }
  }

  lemma SomeFailure(p: Plan, s: State)
    requires Invariant(p, s) && s.verdict == Aborted
    ensures exists n :: FailsAt(p, s.stage, n)
  {
    var n :| n in s.errors;
    assert n in s.tasks && n in StageTasks(p, s.stage);
    assert Consistent(p, s, n);
    assert FailsAt(p, s.stage, n);
  }

  /** Every finished run is the one the plan predicts. */
  lemma RunEndsAsPlanned(p: Plan, schedule: seq<Label>)
    requires WellPlanned(p) && Run(p, FirstStart(p), schedule).Some? && Reached(p, schedule).verdict != Running
    ensures EndsAsPlanned(p, Reached(p, schedule))
  {
    EveryRun(p, schedule);
    FinishedRun(p, Reached(p, schedule));
  }

  /** Which records a started service must end with: FAILED for its first unregistered
      Required dependency, and nothing stored; else as its initialisation decides. */
  ghost predicate EndsAs(p: Plan, s: State, n: Name)
    requires n in p.deps
  {
    && (forall i :: FirstMissing(p.deps[n], p.deps.Keys, i) ==>
          && n in s.status && s.status[n] == Failed && n !in s.services
          && n in s.errors && s.errors[n] == DependencyUnavailable(p.deps[n][i].name))
    && ((forall i :: 0 <= i < |p.deps[n]| && p.deps[n][i].kind == Required ==> p.deps[n][i].name in p.deps) ==>
          && n in s.status
          && match p.env(n)
             case ComesUp(it) => s.status[n] == Healthy && n in s.services && s.services[n] == it && n !in s.errors
             case StartupRaises(it, code) =>
               && s.status[n] == Failed && n in s.services && s.services[n] == it
               && n in s.errors && s.errors[n] == InitFailed(code)
             case InitRaises(code) =>
               s.status[n] == Failed && n !in s.services && n in s.errors && s.errors[n] == InitFailed(code))
  }

  /** The records of a finished run: those of every service up to its last stage, and none
      of any other. */
  lemma RecordsAtEnd(p: Plan, schedule: seq<Label>, n: Name)
    requires WellPlanned(p) && Run(p, FirstStart(p), schedule).Some? && Reached(p, schedule).verdict != Running
    ensures var s := Reached(p, schedule);
            if n in p.deps && p.level[n] <= s.stage then EndsAs(p, s, n)
            else n !in s.status && n !in s.services && n !in s.errors
  {
    RunEndsAsPlanned(p, schedule);
    var s := Reached(p, schedule);
    assert Get(s.status, n) == FinalStatus(p, s.stage, n);
    assert Get(s.services, n) == FinalInstance(p, s.stage, n);
    assert Get(s.errors, n) == FinalError(p, s.stage, n);
    if n in p.deps { FirstUnregisteredMeaning(p.deps[n], p.deps.Keys); }
  }

  /** Schedules do not matter: two finished runs of one plan end with the same verdict, in
      the same stage, with the same statuses, stored services and errors. */
  lemma SchedulesAgree(p: Plan, one: seq<Label>, two: seq<Label>)
    requires WellPlanned(p)
    requires Run(p, FirstStart(p), one).Some? && Reached(p, one).verdict != Running
    requires Run(p, FirstStart(p), two).Some? && Reached(p, two).verdict != Running
    ensures var s, t := Reached(p, one), Reached(p, two);
            && s.verdict == t.verdict && s.stage == t.stage
            && s.status == t.status && s.services == t.services && s.errors == t.errors
  {
    RunEndsAsPlanned(p, one);
    RunEndsAsPlanned(p, two);
    SameEnd(p, Reached(p, one), Reached(p, two));
  }

  lemma SameEnd(p: Plan, s: State, t: State)
    requires EndsAsPlanned(p, s) && EndsAsPlanned(p, t)
    ensures s.verdict == t.verdict && s.stage == t.stage
    ensures s.status == t.status && s.services == t.services && s.errors == t.errors
  {
    if s.verdict == Aborted {
      var n :| FailsAt(p, s.stage, n);
      assert t.stage <= s.stage;
    }
    if t.verdict == Aborted {
      var n :| FailsAt(p, t.stage, n);
      assert s.stage <= t.stage;
    }
    assert s.stage == t.stage;
    MapByGet(s.status, t.status);
    MapByGet(s.services, t.services);
    MapByGet(s.errors, t.errors);
  }

  /** Start-up succeeds if and only if every service has all its Required dependencies
      registered and comes up by itself. */
  lemma UpExactlyWhen(p: Plan, schedule: seq<Label>)
    requires WellPlanned(p) && Run(p, FirstStart(p), schedule).Some? && Reached(p, schedule).verdict != Running
    ensures Reached(p, schedule).verdict == Up
       <==> forall n :: n in p.deps ==> RequiredNames(p.deps[n]) <= p.deps.Keys && p.env(n).ComesUp?
  {
    RunEndsAsPlanned(p, schedule);
    var s := Reached(p, schedule);
    forall n | n in p.deps
      ensures Outcome(p, n).None? <==> RequiredNames(p.deps[n]) <= p.deps.Keys && p.env(n).ComesUp?
    {
      FirstUnregisteredMeaning(p.deps[n], p.deps.Keys);
    }
    if s.verdict == Up {
      forall n | n in p.deps ensures Outcome(p, n).None? { assert !FailsAt(p, p.level[n], n); }
    } else {
      var n :| FailsAt(p, s.stage, n);
    }
  }

  lemma MapByGet<K, V>(a: map<K, V>, b: map<K, V>)
    requires forall k :: Get(a, k) == Get(b, k)
    ensures a == b
  {
    forall k ensures k in a <==> k in b { assert Get(a, k) == Get(b, k); }
    forall k | k in a ensures a[k] == b[k] { assert Get(a, k) == Get(b, k); }
  }

  // ---------------------------------------------------------------- injection

  /** What the plan says `n` is given for its first `i` dependencies: the instances of
      those in earlier stages. */
  function PlannedKwargs(p: Plan, n: Name, i: nat): map<string, Instance>
    requires n in p.deps && n in p.level && i <= |p.deps[n]|
  {
    if i == 0 then map[]
    else
      var m := PlannedKwargs(p, n, i - 1);
      var d := p.deps[n][i - 1];
      if d.name in p.level && p.level[d.name] < p.level[n] && !p.env(d.name).InitRaises?
      then m[ParameterName(d) := p.env(d.name).instance] else m
  }

  /** No dependency that uses parameter `x` shares the stage of `n`. Required ones never
      do; this is about optional and runtime ones. */
  ghost predicate ScheduleFree(p: Plan, n: Name, x: string)
    requires n in p.deps && n in p.level
  {
    forall d :: d in p.deps[n] && ParameterName(d) == x && d.name in p.level ==> p.level[d.name] != p.level[n]
  }

  lemma {:induction false} KwargsAsPlanned(p: Plan, s: State, n: Name, i: nat, x: string)
    requires Invariant(p, s) && s.verdict == Running && n in p.deps && n in p.level && p.level[n] == s.stage
    requires i <= |p.deps[n]| && ScheduleFree(p, n, x)
    ensures Get(Kwargs(p.deps[n], i, MarkStarting(s, n)), x) == Get(PlannedKwargs(p, n, i), x)
  {
    if i > 0 {
      KwargsAsPlanned(p, s, n, i - 1, x);
      var d := p.deps[n][i - 1];
      if ParameterName(d) == x {
        Available(p, s, n, d.name);
        EarlierInstance(p, s, d.name);
      }
    }
  }

  lemma EarlierInstance(p: Plan, s: State, d: Name)
    requires Invariant(p, s)
    ensures d in p.level && p.level[d] < s.stage ==> d in p.deps && !p.env(d).InitRaises?
  {
    if d in p.level {
      assert Consistent(p, s, d);
    }
  }

  ghost predicate GivenAsPlanned(p: Plan, n: Name, kwargs: map<string, Instance>) {
    n in p.deps && n in p.level
    && forall x :: ScheduleFree(p, n, x) ==> Get(kwargs, x) == Get(PlannedKwargs(p, n, |p.deps[n]|), x)
  }

  /** What has been injected so far is what the plan says, parameter by parameter. */
  ghost predicate InjectedAsPlanned(p: Plan, s: State) {
    forall n {:trigger GivenAsPlanned(p, n, s.injected[n])} :: n in s.injected ==> GivenAsPlanned(p, n, s.injected[n])
  }

  lemma BeginInjects(p: Plan, s: State, n: Name)
    requires Invariant(p, s) && Enabled(p, s, Begin(n))
    ensures GivenAsPlanned(p, n, Kwargs(p.deps[n], |p.deps[n]|, MarkStarting(s, n)))
  {
    assert n in StageTasks(p, s.stage);
    forall x | ScheduleFree(p, n, x)
      ensures Get(Kwargs(p.deps[n], |p.deps[n]|, MarkStarting(s, n)), x) == Get(PlannedKwargs(p, n, |p.deps[n]|), x)
    {
      KwargsAsPlanned(p, s, n, |p.deps[n]|, x);
    }
  }

  lemma StepInjects(p: Plan, s: State, l: Label)
    requires Invariant(p, s) && Enabled(p, s, l) && InjectedAsPlanned(p, s)
    ensures InjectedAsPlanned(p, Step(p, s, l))
  {
    var s' := Step(p, s, l);
    if l.Begin? { BeginInjects(p, s, l.name); }
    forall n {:trigger GivenAsPlanned(p, n, s'.injected[n])} | n in s'.injected
      ensures GivenAsPlanned(p, n, s'.injected[n])
    {
      if n in s.injected { assert GivenAsPlanned(p, n, s.injected[n]); }
    }
  }

  lemma {:induction false} EveryRunInjects(p: Plan, schedule: seq<Label>)
    requires WellPlanned(p) && Run(p, FirstStart(p), schedule).Some?
    ensures InjectedAsPlanned(p, Reached(p, schedule))
    decreases |schedule|
  {
    if schedule != [] {
      EveryRunInjects(p, schedule[..|schedule| - 1]);
      EveryRun(p, schedule[..|schedule| - 1]);
      StepInjects(p, Reached(p, schedule[..|schedule| - 1]), schedule[|schedule| - 1]);
    }
  }

  // ---------------------------------------------------------------- which injections can happen

  /** The initialiser of `n` gets called: it misses nothing Required, and no earlier stage
      fails. */
  ghost predicate Startable(p: Plan, n: Name)
    requires n in p.deps && p.level.Keys == p.deps.Keys
  {
    && !Blocked(p, n)
    && forall m :: m in p.level && p.level[m] < p.level[n] ==> Outcome(p, m).None?
  }

  /** The keyword of `d` is `x`, and whatever else has it names the same service. */
  ghost predicate SoleUser(deps: seq<ServiceDependency>, d: ServiceDependency, x: string) {
    d in deps && Keyword(d, x) && forall e :: e in deps && Keyword(e, x) ==> e.name == d.name
  }

  /** Whether `n` may get this for its dependency `d`: the instance, if `d` is in an earlier
      stage, or is another service of its own stage that comes up; nothing, if `d` is not
      in an earlier stage. */
  predicate Allowed(p: Plan, n: Name, d: Name, v: Option<Instance>)
    requires n in p.deps && p.level.Keys == p.deps.Keys
  {
    match v
    case Some(i) => d in p.level && d != n && !p.env(d).InitRaises? && i == p.env(d).instance
                    && (p.level[d] < p.level[n] || (p.level[d] == p.level[n] && Outcome(p, d).None?))
    case None => !(d in p.level && p.level[d] < p.level[n])
  }

  predicate UsedBefore(deps: seq<ServiceDependency>, i: nat, x: string)
    requires i <= |deps|
  {
    exists j :: 0 <= j < i && Keyword(deps[j], x)
  }

  lemma {:induction false} KwargsOfSole(deps: seq<ServiceDependency>, i: nat, s: State, d: ServiceDependency, x: string)
    requires i <= |deps| && SoleUser(deps, d, x)
    ensures Get(Kwargs(deps, i, s), x)
         == if HasService(s, d.name) && UsedBefore(deps, i, x) then Some(s.services[d.name]) else None
  {
    if i > 0 {
      KwargsOfSole(deps, i - 1, s, d, x);
      assert deps[i - 1] in deps;
      KeywordMeaning(deps[i - 1], x);
      assert UsedBefore(deps, i, x) <==> UsedBefore(deps, i - 1, x) || Keyword(deps[i - 1], x);
    }
  }

  lemma SoleArgument(deps: seq<ServiceDependency>, s: State, d: ServiceDependency, x: string)
    requires SoleUser(deps, d, x)
    ensures Get(Kwargs(deps, |deps|, s), x) == if HasService(s, d.name) then Some(s.services[d.name]) else None
  {
    KwargsOfSole(deps, |deps|, s, d, x);
    var j :| 0 <= j < |deps| && deps[j] == d;
    assert Keyword(deps[j], x);
  }

  /** What a service's initialiser has been given is allowed, dependency by dependency. */
  ghost predicate GivenAsAllowed(p: Plan, n: Name, kwargs: map<string, Instance>) {
    && n in p.deps && p.level.Keys == p.deps.Keys && Startable(p, n)
    && forall d, x :: SoleUser(p.deps[n], d, x) ==> Allowed(p, n, d.name, Get(kwargs, x))
  }

  ghost predicate InjectedAsAllowed(p: Plan, s: State) {
    forall n {:trigger GivenAsAllowed(p, n, s.injected[n])} :: n in s.injected ==> GivenAsAllowed(p, n, s.injected[n])
  }

  lemma EarlierCameUp(p: Plan, s: State, m: Name)
    requires Invariant(p, s) && m in p.level && m in p.deps && p.level[m] < s.stage
    ensures Outcome(p, m).None?
  {
    assert Consistent(p, s, m);
  }

  /** What a beginning starter sees of a dependency. */
  lemma SeenAsAllowed(p: Plan, s: State, n: Name, d: Name)
    requires Invariant(p, s) && s.verdict == Running && n in p.deps && n in p.level && p.level[n] == s.stage
    ensures var s' := MarkStarting(s, n);
            Allowed(p, n, d, if HasService(s', d) then Some(s'.services[d]) else None)
  {
    if d in p.level { assert Consistent(p, s, d); }
  }

  lemma BeginGives(p: Plan, s: State, n: Name)
    requires WellPlanned(p) && Invariant(p, s) && Enabled(p, s, Begin(n))
    requires FirstUnavailable(p.deps[n], MarkStarting(s, n)).None?
    ensures GivenAsAllowed(p, n, Kwargs(p.deps[n], |p.deps[n]|, MarkStarting(s, n)))
  {
    assert n in StageTasks(p, s.stage);
    CheckIsStatic(p, s, n);
    forall m | m in p.level && p.level[m] < p.level[n] ensures Outcome(p, m).None? { EarlierCameUp(p, s, m); }
    forall d, x | SoleUser(p.deps[n], d, x)
      ensures Allowed(p, n, d.name, Get(Kwargs(p.deps[n], |p.deps[n]|, MarkStarting(s, n)), x))
    {
      SoleArgument(p.deps[n], MarkStarting(s, n), d, x);
      SeenAsAllowed(p, s, n, d.name);
    }
  }

  lemma StepGives(p: Plan, s: State, l: Label)
    requires WellPlanned(p) && Invariant(p, s) && Enabled(p, s, l) && InjectedAsAllowed(p, s)
    ensures InjectedAsAllowed(p, Step(p, s, l))
  {
    InjectedAfter(p, s, l);
    if l.Begin? && FirstUnavailable(p.deps[l.name], MarkStarting(s, l.name)).None? {
      BeginGives(p, s, l.name);
      AllowedOneMore(p, s, Step(p, s, l), l.name, Kwargs(p.deps[l.name], |p.deps[l.name]|, MarkStarting(s, l.name)));
    } else {
      AllowedSame(p, s, Step(p, s, l));
    }
  }

  lemma InjectedAfter(p: Plan, s: State, l: Label)
    requires Enabled(p, s, l)
    ensures Step(p, s, l).injected
         == if l.Begin? && FirstUnavailable(p.deps[l.name], MarkStarting(s, l.name)).None?
            then s.injected[l.name := Kwargs(p.deps[l.name], |p.deps[l.name]|, MarkStarting(s, l.name))] else s.injected
  {
  }

  lemma AllowedOneMore(p: Plan, s: State, s': State, n: Name, kwargs: map<string, Instance>)
    requires InjectedAsAllowed(p, s) && GivenAsAllowed(p, n, kwargs) && s'.injected == s.injected[n := kwargs]
    ensures InjectedAsAllowed(p, s')
  {
    forall m {:trigger GivenAsAllowed(p, m, s'.injected[m])} | m in s'.injected
      ensures GivenAsAllowed(p, m, s'.injected[m])
    {
      if m != n { assert GivenAsAllowed(p, m, s.injected[m]); }
    }
  }

  lemma AllowedSame(p: Plan, s: State, s': State)
    requires InjectedAsAllowed(p, s) && s'.injected == s.injected
    ensures InjectedAsAllowed(p, s')
  {
    forall m {:trigger GivenAsAllowed(p, m, s'.injected[m])} | m in s'.injected
      ensures GivenAsAllowed(p, m, s'.injected[m])
    {
      assert GivenAsAllowed(p, m, s.injected[m]);
    }
  }

  lemma {:induction false} EveryRunGives(p: Plan, schedule: seq<Label>)
    requires WellPlanned(p) && Run(p, FirstStart(p), schedule).Some?
    ensures InjectedAsAllowed(p, Reached(p, schedule))
    decreases |schedule|
  {
    if schedule != [] {
      EveryRunGives(p, schedule[..|schedule| - 1]);
      EveryRun(p, schedule[..|schedule| - 1]);
      StepGives(p, Reached(p, schedule[..|schedule| - 1]), schedule[|schedule| - 1]);
    }
  }

  // ---------------------------------------------------------------- schedules that make them happen

  /** The schedule leads into stage `k` with these phases. */
  ghost predicate Leads(p: Plan, schedule: seq<Label>, k: nat, tasks: map<Name, Phase>) {
    && Run(p, FirstStart(p), schedule).Some?
    && Reached(p, schedule).verdict == Running && Reached(p, schedule).stage == k && Reached(p, schedule).tasks == tasks
  }

  /** A queued service that misses nothing begins. */
  lemma Begins(p: Plan, schedule: seq<Label>, k: nat, tasks: map<Name, Phase>, n: Name)
    requires WellPlanned(p) && Leads(p, schedule, k, tasks)
    requires Get(tasks, n) == Some(Queued) && n in p.deps && !Blocked(p, n)
    ensures Leads(p, schedule + [Begin(n)], k, tasks[n := Initialising])
    ensures Reached(p, schedule + [Begin(n)]).injected
         == Reached(p, schedule).injected[n := Kwargs(p.deps[n], |p.deps[n]|, MarkStarting(Reached(p, schedule), n))]
  {
    EveryRun(p, schedule);
    var s := Reached(p, schedule);
    assert n in StageTasks(p, s.stage);
    CheckIsStatic(p, s, n);
    RunOneMore(p, FirstStart(p), schedule, Begin(n));
  }

  /** One starter runs to its end. */
  lemma RunsThrough(p: Plan, schedule: seq<Label>, k: nat, tasks: map<Name, Phase>, n: Name)
    returns (longer: seq<Label>)
    requires WellPlanned(p) && Leads(p, schedule, k, tasks)
    requires Get(tasks, n) == Some(Queued) && n in p.deps && Outcome(p, n).None?
    ensures Leads(p, longer, k, tasks[n := Ended(None)])
  {
    Begins(p, schedule, k, tasks, n);
    var a := schedule + [Begin(n)];
    RunOneMore(p, FirstStart(p), a, InitReturns(n));
    var b := a + [InitReturns(n)];
    assert tasks[n := Initialising][n := Stored] == tasks[n := Stored];
    RunOneMore(p, FirstStart(p), b, Finishes(n));
    longer := b + [Finishes(n)];
    assert tasks[n := Stored][n := Ended(None)] == tasks[n := Ended(None)];
  }

  function Ending(tasks: map<Name, Phase>, done: set<Name>): map<Name, Phase> {
    map n | n in tasks :: if n in done then Ended(None) else tasks[n]
  }

  lemma EndingOneMore(tasks: map<Name, Phase>, done: set<Name>, n: Name)
    requires n in done && n in tasks
    ensures Ending(tasks, done) == Ending(tasks, done - {n})[n := Ended(None)]
    ensures Ending(tasks, done - {n})[n] == tasks[n]
  {
  }

  /** All starters of a stage in which nothing fails run to their ends. */
  lemma {:induction false} AllRunThrough(p: Plan, schedule: seq<Label>, k: nat, done: set<Name>)
    returns (longer: seq<Label>)
    requires WellPlanned(p) && Leads(p, schedule, k, StageTasks(p, k)) && done <= StageTasks(p, k).Keys
    requires forall n :: n in done && n in p.deps ==> Outcome(p, n).None?
    ensures Leads(p, longer, k, Ending(StageTasks(p, k), done))
    decreases done
  {
    if done == {} {
      assert Ending(StageTasks(p, k), done) == StageTasks(p, k);
      longer := schedule;
    } else {
      var n :| n in done;
      var before := AllRunThrough(p, schedule, k, done - {n});
      EndingOneMore(StageTasks(p, k), done, n);
      longer := RunsThrough(p, before, k, Ending(StageTasks(p, k), done - {n}), n);
    }
  }

  /** A stage is reached if no earlier one fails. */
  lemma {:induction false} StageReached(p: Plan, k: nat) returns (schedule: seq<Label>)
    requires WellPlanned(p) && k < p.height
    requires forall m :: m in p.level && m in p.deps && p.level[m] < k ==> Outcome(p, m).None?
    ensures Leads(p, schedule, k, StageTasks(p, k))
    decreases k
  {
    if k == 0 {
      schedule := [];
    } else {
      var begun := StageReached(p, k - 1);
      var done := AllRunThrough(p, begun, k - 1, StageTasks(p, k - 1).Keys);
      var s := Reached(p, done);
      assert Failures(s) == map[];
      RunOneMore(p, FirstStart(p), done, GatherReturns);
      schedule := done + [GatherReturns];
    }
  }

  /** Under `schedule` the initialiser of `n` is called with `v` for the parameter `x`. */
  ghost predicate Gives(p: Plan, schedule: seq<Label>, n: Name, x: string, v: Option<Instance>) {
    Run(p, FirstStart(p), schedule).Some? && n in Reached(p, schedule).injected
    && Get(Reached(p, schedule).injected[n], x) == v
  }

  ghost predicate CanGive(p: Plan, n: Name, x: string, v: Option<Instance>) {
    exists schedule :: Gives(p, schedule, n, x, v)
  }

  /** When `n` is the next to begin, it gets what its dependency `d` is worth just then. */
  lemma BeginsWith(p: Plan, schedule: seq<Label>, k: nat, tasks: map<Name, Phase>, n: Name, d: ServiceDependency,
                   x: string, v: Option<Instance>)
    requires WellPlanned(p) && Leads(p, schedule, k, tasks)
    requires Get(tasks, n) == Some(Queued) && n in p.deps && !Blocked(p, n)
    requires SoleUser(p.deps[n], d, x)
    requires var s := MarkStarting(Reached(p, schedule), n);
             v == if HasService(s, d.name) then Some(s.services[d.name]) else None
    ensures CanGive(p, n, x, v)
  {
    Begins(p, schedule, k, tasks, n);
    SoleArgument(p.deps[n], MarkStarting(Reached(p, schedule), n), d, x);
    assert Gives(p, schedule + [Begin(n)], n, x, v);
  }

  /** At the start of the stage of `n`, only earlier services are available. */
  lemma GiveAtOnce(p: Plan, n: Name, d: ServiceDependency, x: string, v: Option<Instance>)
    requires WellPlanned(p) && n in p.deps && Startable(p, n) && SoleUser(p.deps[n], d, x) && Allowed(p, n, d.name, v)
    requires v.Some? ==> p.level[d.name] < p.level[n]
    ensures CanGive(p, n, x, v)
  {
    var k := p.level[n];
    var schedule := StageReached(p, k);
    EveryRun(p, schedule);
    var s := Reached(p, schedule);
    if d.name in p.level { assert Consistent(p, s, d.name); }
    assert d.name in p.level && p.level[d.name] == k ==> d.name in StageTasks(p, k);
    BeginsWith(p, schedule, k, StageTasks(p, k), n, d, x, v);
  }

  /** A service of the same stage that comes up can do so before `n` begins. */
  lemma GiveLater(p: Plan, n: Name, d: ServiceDependency, x: string)
    requires WellPlanned(p) && n in p.deps && Startable(p, n) && SoleUser(p.deps[n], d, x)
    requires d.name in p.deps && d.name != n && p.level[d.name] == p.level[n] && Outcome(p, d.name).None?
    ensures CanGive(p, n, x, Some(p.env(d.name).instance))
  {
    var k := p.level[n];
    var reached := StageReached(p, k);
    assert d.name in StageTasks(p, k) && n in StageTasks(p, k);
    var schedule := RunsThrough(p, reached, k, StageTasks(p, k), d.name);
    EveryRun(p, schedule);
    assert Consistent(p, Reached(p, schedule), d.name);
    BeginsWith(p, schedule, k, StageTasks(p, k)[d.name := Ended(None)], n, d, x, Some(p.env(d.name).instance));
  }

  /** Exactly what can be injected, for any dependency whose keyword no other one uses:
      the initialiser must get called, and the value must be allowed. */
  lemma InjectedExactlyWhen(p: Plan, n: Name, d: ServiceDependency, x: string, v: Option<Instance>)
    requires WellPlanned(p) && n in p.deps && SoleUser(p.deps[n], d, x)
    ensures CanGive(p, n, x, v) <==> Startable(p, n) && Allowed(p, n, d.name, v)
  {
    if CanGive(p, n, x, v) {
      var schedule :| Gives(p, schedule, n, x, v);
      EveryRunGives(p, schedule);
      assert GivenAsAllowed(p, n, Reached(p, schedule).injected[n]);
    }
    if Startable(p, n) && Allowed(p, n, d.name, v) {
      if v.Some? && p.level[d.name] == p.level[n] { GiveLater(p, n, d, x); } else { GiveAtOnce(p, n, d, x, v); }
    }
  }

  /** So the injection depends on the schedule if and only if the dependency is another
      service of the same stage that comes up. */
  lemma InjectionVariesExactlyWhen(p: Plan, n: Name, d: ServiceDependency, x: string)
    requires WellPlanned(p) && n in p.deps && SoleUser(p.deps[n], d, x) && Startable(p, n)
    ensures (exists v, w :: v != w && CanGive(p, n, x, v) && CanGive(p, n, x, w))
       <==> d.name != n && d.name in p.deps && p.level[d.name] == p.level[n] && Outcome(p, d.name).None?
  {
    forall v
      ensures CanGive(p, n, x, v) <==> Allowed(p, n, d.name, v) { InjectedExactlyWhen(p, n, d, x, v); }
    if d.name in p.deps && Outcome(p, d.name).None? {
      var there := Some(p.env(d.name).instance);
      assert Allowed(p, n, d.name, there) && Allowed(p, n, d.name, None) ==>
        CanGive(p, n, x, there) && CanGive(p, n, x, None);
    }
  }

  // ---------------------------------------------------------------- what initialisers are given

  /** Among the first `i` dependencies the last one with keyword `x` and a name in the set
      is at position `j`. */
  predicate LastUser(deps: seq<ServiceDependency>, i: nat, x: string, names: set<Name>, j: int) {
    && 0 <= j < i <= |deps| && Keyword(deps[j], x) && deps[j].name in names
    && forall k :: j < k < i && Keyword(deps[k], x) ==> deps[k].name !in names
  }

  predicate NoUser(deps: seq<ServiceDependency>, i: nat, x: string, names: set<Name>) {
    i <= |deps| && forall j :: 0 <= j < i && Keyword(deps[j], x) ==> deps[j].name !in names
  }

  lemma UserOneMore(deps: seq<ServiceDependency>, i: nat, x: string, names: set<Name>)
    requires 0 < i <= |deps|
    ensures var hit := Keyword(deps[i - 1], x) && deps[i - 1].name in names;
            && (NoUser(deps, i, x, names) <==> !hit && NoUser(deps, i - 1, x, names))
            && forall j :: LastUser(deps, i, x, names, j) <==> if hit then j == i - 1
                                                               else LastUser(deps, i - 1, x, names, j)
  {
    assert NoUser(deps, i, x, names) ==> NoUser(deps, i - 1, x, names);
  }

  /** The services that are stored and HEALTHY. */
  function ReadyIn(s: State): set<Name> {
    set n | n in s.services && n in s.status && s.status[n] == Healthy
  }

  lemma ReadyMeaning(s: State, n: Name)
    ensures n in ReadyIn(s) <==> HasService(s, n)
  {
  }

  /** An argument is the instance of the last stored and HEALTHY dependency with that
      keyword, and it is missing if there is none. */
  lemma {:induction false} KwargsMeaning(deps: seq<ServiceDependency>, i: nat, s: State, x: string)
    requires i <= |deps|
    ensures NoUser(deps, i, x, ReadyIn(s)) <==> x !in Kwargs(deps, i, s)
    ensures forall j :: LastUser(deps, i, x, ReadyIn(s), j) ==>
              Get(Kwargs(deps, i, s), x) == Get(s.services, deps[j].name)
    ensures forall j :: LastUser(deps, i, x, ReadyIn(s), j) ==> x in Kwargs(deps, i, s)
  {
    if i > 0 {
      KwargsMeaning(deps, i - 1, s, x);
      KeywordMeaning(deps[i - 1], x);
      ReadyMeaning(s, deps[i - 1].name);
      UserOneMore(deps, i, x, ReadyIn(s));
    }
  }

  /** Dependency `j` settles what is planned for the keyword: its service's instance, if it
      is in an earlier stage. */
  predicate PlannedHit(p: Plan, n: Name, j: int, x: string)
    requires n in p.deps && n in p.level
  {
    0 <= j < |p.deps[n]| && Keyword(p.deps[n][j], x) && p.deps[n][j].name in EarlierThan(p, n)
  }

  function EarlierThan(p: Plan, n: Name): set<Name>
    requires n in p.level
  {
    set m | m in p.level && p.level[m] < p.level[n]
  }

  lemma PlannedStep(p: Plan, n: Name, i: nat, x: string)
    requires n in p.deps && n in p.level && 0 < i <= |p.deps[n]|
    requires forall m :: m in EarlierThan(p, n) ==> !p.env(m).InitRaises?
    ensures Get(PlannedKwargs(p, n, i), x)
         == if PlannedHit(p, n, i - 1, x) then Some(p.env(p.deps[n][i - 1].name).instance)
            else Get(PlannedKwargs(p, n, i - 1), x)
  {
    KeywordMeaning(p.deps[n][i - 1], x);
  }

  lemma {:induction false} PlannedMeaning(p: Plan, n: Name, i: nat, x: string)
    requires n in p.deps && n in p.level && i <= |p.deps[n]|
    requires forall m :: m in EarlierThan(p, n) ==> !p.env(m).InitRaises?
    ensures NoUser(p.deps[n], i, x, EarlierThan(p, n)) <==> Get(PlannedKwargs(p, n, i), x) == None
    ensures forall j :: LastUser(p.deps[n], i, x, EarlierThan(p, n), j) ==>
              Get(PlannedKwargs(p, n, i), x) == Some(p.env(p.deps[n][j].name).instance)
  {
    if i > 0 {
      PlannedMeaning(p, n, i - 1, x);
      PlannedStep(p, n, i, x);
      UserOneMore(p.deps[n], i, x, EarlierThan(p, n));
    }
  }

  /** What beginning the starter of `n` does, from the records alone: it fails on the first
      Required dependency that is not stored and HEALTHY, and else calls the initialiser
      with the arguments of those that are. */
  ghost predicate Begun(deps: seq<ServiceDependency>, s: State, s': State, n: Name) {
    var ready := ReadyIn(s) - {n};
    && s'.services == s.services && s'.errors == s.errors
    && (forall i :: FirstMissing(deps, ready, i) ==>
          && s'.tasks == s.tasks[n := Ended(Some(DependencyUnavailable(deps[i].name)))]
          && s'.status == s.status[n := Failed] && s'.injected == s.injected)
    && ((forall i :: 0 <= i < |deps| && deps[i].kind == Required ==> deps[i].name in ready) ==>
          && s'.tasks == s.tasks[n := Initialising] && s'.status == s.status[n := Starting]
          && n in s'.injected && s'.injected == s.injected[n := s'.injected[n]]
          && Arguments(deps, s.services, ready, s'.injected[n]))
  }

  /** Each keyword carries the instance of the last ready dependency that has it. */
  ghost predicate Arguments(deps: seq<ServiceDependency>, services: map<Name, Instance>, ready: set<Name>,
                            kwargs: map<string, Instance>)
  {
    forall x {:trigger Argument(deps, services, ready, kwargs, x)} :: Argument(deps, services, ready, kwargs, x)
  }

  ghost predicate Argument(deps: seq<ServiceDependency>, services: map<Name, Instance>, ready: set<Name>,
                           kwargs: map<string, Instance>, x: string)
  {
    && (x !in kwargs <==> NoUser(deps, |deps|, x, ready))
    && forall j :: LastUser(deps, |deps|, x, ready, j) && deps[j].name in services ==>
         x in kwargs && kwargs[x] == services[deps[j].name]
  }

  lemma ArgumentsRight(deps: seq<ServiceDependency>, s: State)
    ensures Arguments(deps, s.services, ReadyIn(s), Kwargs(deps, |deps|, s))
  {
    forall x {:trigger Argument(deps, s.services, ReadyIn(s), Kwargs(deps, |deps|, s), x)}
      ensures Argument(deps, s.services, ReadyIn(s), Kwargs(deps, |deps|, s), x)
    {
      KwargsMeaning(deps, |deps|, s, x);
    }
  }

  lemma BeginMeaning(p: Plan, s: State, n: Name)
    requires n in p.deps
    ensures Begun(p.deps[n], s, BeginStep(p, s, n), n)
  {
    var deps, s' := p.deps[n], MarkStarting(s, n);
    assert ReadyIn(s') == ReadyIn(s) - {n};
    AvailableMeaning(deps, s', ReadyIn(s'));
    ArgumentsRight(deps, s');
  }

  lemma AvailableMeaning(deps: seq<ServiceDependency>, s: State, ready: set<Name>)
    requires ready == ReadyIn(s)
    ensures forall i :: FirstMissing(deps, ready, i) ==> FirstUnavailable(deps, s) == Some(deps[i].name)
    ensures FirstUnavailable(deps, s).None? <==>
              forall i :: 0 <= i < |deps| && deps[i].kind == Required ==> deps[i].name in ready
  {
    UnavailableMeansUnregistered(deps, s, ready);
    FirstUnregisteredMeaning(deps, ready);
  }

  /** Every call of an initialiser, in every schedule, passes under each keyword that no
      dependency of the same stage has exactly the instance the plan determines: that of
      the last dependency with this keyword in an earlier stage. */
  lemma InjectionIsPlanned(p: Plan, schedule: seq<Label>, n: Name, x: string)
    requires WellPlanned(p) && Run(p, FirstStart(p), schedule).Some?
    requires n in Reached(p, schedule).injected && n in p.deps
    requires forall d :: d in p.deps[n] && Keyword(d, x) && d.name in p.level ==> p.level[d.name] != p.level[n]
    ensures var deps, kwargs := p.deps[n], Reached(p, schedule).injected[n];
            && (NoUser(deps, |deps|, x, EarlierThan(p, n)) <==> x !in kwargs)
            && forall j :: LastUser(deps, |deps|, x, EarlierThan(p, n), j) ==>
                 p.env(deps[j].name).ComesUp? && x in kwargs && kwargs[x] == p.env(deps[j].name).instance
  {
    EveryRunInjects(p, schedule);
    EveryRunGives(p, schedule);
    var kwargs := Reached(p, schedule).injected[n];
    assert GivenAsPlanned(p, n, kwargs) && GivenAsAllowed(p, n, kwargs);
    forall d | d in p.deps[n] ensures ParameterName(d) == x <==> Keyword(d, x) { KeywordMeaning(d, x); }
    assert ScheduleFree(p, n, x);
    forall m | m in EarlierThan(p, n) ensures p.env(m).ComesUp? { assert Outcome(p, m).None?; }
    PlannedMeaning(p, n, |p.deps[n]|, x);
    assert Get(kwargs, x) == Get(PlannedKwargs(p, n, |p.deps[n]|), x);
  }

  /** In particular a Required dependency whose keyword no other dependency has is
      injected, and it is that dependency's own instance. */
  lemma RequiredIsInjected(p: Plan, schedule: seq<Label>, n: Name, d: ServiceDependency, x: string)
    requires WellPlanned(p) && Run(p, FirstStart(p), schedule).Some?
    requires n in Reached(p, schedule).injected && n in p.deps
    requires d in p.deps[n] && d.kind == Required && Keyword(d, x)
    requires forall e :: e in p.deps[n] && Keyword(e, x) ==> e.name == d.name
    ensures d.name in p.deps && p.env(d.name).ComesUp?
    ensures x in Reached(p, schedule).injected[n] && Reached(p, schedule).injected[n][x] == p.env(d.name).instance
  {
    EveryRunGives(p, schedule);
    var kwargs := Reached(p, schedule).injected[n];
    assert GivenAsAllowed(p, n, kwargs);
    FirstUnregisteredMeaning(p.deps[n], p.deps.Keys);
    assert d.name in RequiredNames(p.deps[n]);
    assert SoleUser(p.deps[n], d, x);
    assert Allowed(p, n, d.name, Get(kwargs, x));
  }
}
