/** The vehicle safety state engine over whole event histories. Clock readings come with
    the events; a speed is `None` when no reading, or an explicit null, was received. */
module SafetyEngine {
  import opened Services

  datatype VehicleState = Unknown | ParkedSafe | ParkedRunning | Driving | Unsafe

  datatype Event =
    | ParkingBrakeSet | ParkingBrakeReleased
    | EngineStarted | EngineStopped
    | VehicleMoving | VehicleStopped
    | TransmissionPark | TransmissionDrive

  /** An entry of the event's data: missing, null, or a value. */
  datatype Entry<T> = Absent | Null | Given(value: T)

  function Read<T>(e: Entry<T>, default: T): Option<T> {
    match e case Absent => Some(default) case Null => None case Given(v) => Some(v)
  }

  /** One event with the two clock readings that processing it makes. */
  datatype Stamped = Stamped(event: Event, speed: Entry<real>, gear: Entry<string>, updatedAt: real, evaluatedAt: real)

  datatype StateData = StateData(
    brakeSet: Option<bool>, engineRunning: Option<bool>, speed: Option<real>, gear: Option<string>, lastUpdated: real)

  const MOVING_SPEED_THRESHOLD := 0.5
  const STATE_DATA_TIMEOUT := 30.0

  datatype Verdict =
    | Allowed | DataTooOld | VehicleIsMoving | VehicleUnsafe | WrongState | BrakeNotSet | NotInPark

  function Update(d: StateData, e: Stamped): StateData {
    var d := match e.event {
      case ParkingBrakeSet => d.(brakeSet := Some(true))
      case ParkingBrakeReleased => d.(brakeSet := Some(false))
      case EngineStarted => d.(engineRunning := Some(true))
      case EngineStopped => d.(engineRunning := Some(false))
      case VehicleMoving => d.(speed := Read(e.speed, 0.0))
      case VehicleStopped => d.(speed := Read(e.speed, 0.0))
      case TransmissionPark => d.(gear := Read(e.gear, "unknown"))
      case TransmissionDrive => d.(gear := Read(e.gear, "unknown"))
    };
    d.(lastUpdated := e.updatedAt)
  }

  predicate Moving(d: StateData) {
    d.speed.Some? && d.speed.value > MOVING_SPEED_THRESHOLD
  }

  function Evaluate(d: StateData, now: real): VehicleState {
    if now - d.lastUpdated > STATE_DATA_TIMEOUT then Unknown
    else if d.engineRunning == Some(true) && d.brakeSet == Some(false) && Moving(d) then Driving
    else if Moving(d) then Driving
    else if d.brakeSet == Some(true) then (if d.engineRunning == Some(true) then ParkedRunning else ParkedSafe)
    else Unknown
  }

  function Check(state: VehicleState, d: StateData, operation: string, now: real): Verdict {
    if now - d.lastUpdated > STATE_DATA_TIMEOUT then DataTooOld
    else if state == Driving
            && operation in ["slideout_extend", "slideout_retract", "leveling_extend", "leveling_retract"]
    then VehicleIsMoving
    else if state == Unsafe then VehicleUnsafe
    else if operation == "slideout_extend" then
      if state !in [ParkedSafe, ParkedRunning] then WrongState
      else if d.brakeSet == Some(false) then BrakeNotSet
      else Allowed
    else if operation == "engine_start" then
      if d.gear !in [None, Some("park"), Some("P")] then NotInPark else Allowed
    else if operation in ["leveling_extend", "leveling_retract"] then
      if d.brakeSet == Some(false) then BrakeNotSet else Allowed
    else Allowed
  }

  class SafetyStateEngine {
    var currentState: VehicleState
    var stateData: StateData
    /** Emergency-stop commands sent to observers. */
    var emergencyStops: nat
    ghost var created: real
    ghost var history: seq<Stamped>

    /** The fields are what the whole history makes them. */
    ghost predicate Valid()
      reads this
    {
      && stateData == DataAfter(history, created)
      && currentState == StateAfter(history, created)
      && emergencyStops == 0
    }

    constructor (now: real)
      ensures Valid() && history == [] && created == now
    {
      currentState, stateData, emergencyStops := Unknown, StateData(None, None, None, None, now), 0;
      created, history := now, [];
    }

    method ProcessEvent(e: Stamped)
      requires Valid()
      modifies this
      ensures Valid() && history == old(history) + [e] && created == old(created)
    {
      assert (history + [e])[..|history|] == history;
      DataIsLastEvents(history, created);
      UpdateStateData(e);
      var newState := EvaluateCurrentState(e.evaluatedAt);
      if newState != currentState {
        TransitionTo(newState);
      }
      history := history + [e];
    }

    /** If the data says what the last event of each kind said before `e`, it says so with
        `e` included. */
    method UpdateStateData(e: Stamped)
      requires Tells(history, created, stateData)
      modifies this`stateData
      ensures Tells(history + [e], created, stateData)
      ensures stateData == Update(old(stateData), e)
    {
      TellsOneMore(history, e, created, stateData);
      match e.event {
        case ParkingBrakeSet => stateData := stateData.(brakeSet := Some(true));
        case ParkingBrakeReleased => stateData := stateData.(brakeSet := Some(false));
        case EngineStarted => stateData := stateData.(engineRunning := Some(true));
        case EngineStopped => stateData := stateData.(engineRunning := Some(false));
        case VehicleMoving => stateData := stateData.(speed := Read(e.speed, 0.0));
        case VehicleStopped => stateData := stateData.(speed := Read(e.speed, 0.0));
        case TransmissionPark => stateData := stateData.(gear := Read(e.gear, "unknown"));
        case TransmissionDrive => stateData := stateData.(gear := Read(e.gear, "unknown"));
      }
      stateData := stateData.(lastUpdated := e.updatedAt);
    }

    function EvaluateCurrentState(now: real): VehicleState
      reads this`stateData
    {
      Evaluate(stateData, now)
    }

    method TransitionTo(newState: VehicleState)
      modifies this`currentState, this`emergencyStops
      ensures currentState == newState
      ensures emergencyStops == old(emergencyStops) + if newState == Unsafe then 1 else 0
    {
      currentState := newState;
      if newState == Unsafe { emergencyStops := emergencyStops + 1; }
    }

    /** The verdict, explained by the last events. */
    method IsOperationSafe(operation: string, now: real) returns (verdict: Verdict)
      requires Valid()
      ensures Explains(history, created, operation, now, verdict)
      ensures verdict == Check(currentState, stateData, operation, now)
    {
      VerdictExplained(history, created, operation, now);
      if now - stateData.lastUpdated > STATE_DATA_TIMEOUT { return DataTooOld; }
      if currentState == Driving
         && operation in ["slideout_extend", "slideout_retract", "leveling_extend", "leveling_retract"] {
        return VehicleIsMoving;
      }
      if currentState == Unsafe { return VehicleUnsafe; }
      if operation == "slideout_extend" {
        if currentState !in [ParkedSafe, ParkedRunning] { return WrongState; }
        if stateData.brakeSet == Some(false) { return BrakeNotSet; }
      } else if operation == "engine_start" {
        if stateData.gear !in [None, Some("park"), Some("P")] { return NotInPark; }
      } else if operation in ["leveling_extend", "leveling_retract"] {
        if stateData.brakeSet == Some(false) { return BrakeNotSet; }
      }
      return Allowed;
    }
  }

  // ---------------------------------------------------------------- histories

  function DataAfter(h: seq<Stamped>, created: real): StateData
    decreases |h|
  {
    if h == [] then StateData(None, None, None, None, created)
    else Update(DataAfter(h[..|h| - 1], created), h[|h| - 1])
  }

  function StateAfter(h: seq<Stamped>, created: real): VehicleState {
    if h == [] then Unknown else Evaluate(DataAfter(h, created), h[|h| - 1].evaluatedAt)
  }

  /** The last event of these kinds is at position `i`. */
  predicate LastAt(h: seq<Stamped>, i: int, kinds: set<Event>) {
    0 <= i < |h| && h[i].event in kinds && forall j :: i < j < |h| ==> h[j].event !in kinds
  }

  function LastOf(h: seq<Stamped>, kinds: set<Event>): Option<Stamped>
    decreases |h|
  {
    if h == [] then None
    else if h[|h| - 1].event in kinds then Some(h[|h| - 1])
    else LastOf(h[..|h| - 1], kinds)
  }

  lemma {:induction false} LastMeaning(h: seq<Stamped>, kinds: set<Event>)
    ensures forall i :: LastAt(h, i, kinds) ==> LastOf(h, kinds) == Some(h[i])
    ensures LastOf(h, kinds).Some? ==> exists i :: LastAt(h, i, kinds)
    ensures LastOf(h, kinds).None? ==> forall i :: 0 <= i < |h| ==> h[i].event !in kinds
    decreases |h|
  {
    if h != [] {
      var before := h[..|h| - 1];
      LastMeaning(before, kinds);
      assert h[|h| - 1].event in kinds ==> LastAt(h, |h| - 1, kinds);
      assert h[|h| - 1].event !in kinds ==> forall i :: LastAt(h, i, kinds) <==> LastAt(before, i, kinds);
    }
  }

  lemma LastOneMore(h: seq<Stamped>, e: Stamped, kinds: set<Event>)
    ensures LastOf(h + [e], kinds) == Latest(LastOf(h, kinds), e, kinds)
  {
    assert (h + [e])[..|h|] == h;
  }

  const BRAKE: set<Event> := {ParkingBrakeSet, ParkingBrakeReleased}
  const ENGINE: set<Event> := {EngineStarted, EngineStopped}
  const SPEED: set<Event> := {VehicleMoving, VehicleStopped}
  const GEAR: set<Event> := {TransmissionPark, TransmissionDrive}

  predicate LastIs(h: seq<Stamped>, kinds: set<Event>, event: Event) {
    LastOf(h, kinds).Some? && LastOf(h, kinds).value.event == event
  }

  predicate BrakeReportedSet(h: seq<Stamped>) {
    LastIs(h, BRAKE, ParkingBrakeSet)
  }

  predicate BrakeReportedReleased(h: seq<Stamped>) {
    LastIs(h, BRAKE, ParkingBrakeReleased)
  }

  predicate EngineReportedRunning(h: seq<Stamped>) {
    LastIs(h, ENGINE, EngineStarted)
  }

  /** The last speed event gave a speed, and one above the threshold. */
  predicate ReportedMoving(h: seq<Stamped>) {
    var last := LastOf(h, SPEED);
    last.Some? && last.value.speed.Given? && last.value.speed.value > 0.5
  }

  /** The last gear event does not leave it open that the gear is park: it named another
      gear, or none. An explicit null leaves it open. */
  predicate GearReportedOther(h: seq<Stamped>) {
    var last := LastOf(h, GEAR);
    last.Some? && last.value.gear !in {Null, Given("park"), Given("P")}
  }

  /** `value` is what the entry gives, the default if it is missing, nothing if it is null. */
  predicate Conveys<T(==)>(e: Entry<T>, default: T, value: Option<T>) {
    && (e.Given? ==> value == Some(e.value))
    && (e.Absent? ==> value == Some(default))
    && (e.Null? ==> value == None)
  }

  /** `d` repeats what these events said, and knows nothing of which no event spoke. */
  predicate Repeats(d: StateData, brake: Option<Stamped>, engine: Option<Stamped>, speed: Option<Stamped>,
                    gear: Option<Stamped>)
  {
    && d.brakeSet == (if brake.None? then None else Some(brake.value.event == ParkingBrakeSet))
    && d.engineRunning == (if engine.None? then None else Some(engine.value.event == EngineStarted))
    && (if speed.None? then d.speed == None else Conveys(speed.value.speed, 0.0, d.speed))
    && (if gear.None? then d.gear == None else Conveys(gear.value.gear, "unknown", d.gear))
  }

  /** `d` repeats what the last event of each kind said. */
  predicate Tells(h: seq<Stamped>, created: real, d: StateData) {
    && Repeats(d, LastOf(h, BRAKE), LastOf(h, ENGINE), LastOf(h, SPEED), LastOf(h, GEAR))
    && d.lastUpdated == LastHeard(h, created)
  }

  /** When the last event was recorded, or else the engine created. */
  function LastHeard(h: seq<Stamped>, created: real): real {
    if h == [] then created else h[|h| - 1].updatedAt
  }

  lemma UpdateRepeats(d: StateData, e: Stamped, brake: Option<Stamped>, engine: Option<Stamped>,
                      speed: Option<Stamped>, gear: Option<Stamped>)
    requires Repeats(d, brake, engine, speed, gear)
    ensures Repeats(Update(d, e), Latest(brake, e, BRAKE), Latest(engine, e, ENGINE), Latest(speed, e, SPEED),
                    Latest(gear, e, GEAR))
  {
  }

  function Latest(before: Option<Stamped>, e: Stamped, kinds: set<Event>): Option<Stamped> {
    if e.event in kinds then Some(e) else before
  }

  lemma TellsOneMore(h: seq<Stamped>, e: Stamped, created: real, d: StateData)
    requires Tells(h, created, d)
    ensures Tells(h + [e], created, Update(d, e))
  {
    LastOneMore(h, e, BRAKE);
    LastOneMore(h, e, ENGINE);
    LastOneMore(h, e, SPEED);
    LastOneMore(h, e, GEAR);
    UpdateRepeats(d, e, LastOf(h, BRAKE), LastOf(h, ENGINE), LastOf(h, SPEED), LastOf(h, GEAR));
  }

  /** However long the history, the data is what the last event of each kind said. */
  lemma {:induction false} DataIsLastEvents(h: seq<Stamped>, created: real)
    ensures Tells(h, created, DataAfter(h, created))
    decreases |h|
  {
    if h != [] {
      var before, e := h[..|h| - 1], h[|h| - 1];
      DataIsLastEvents(before, created);
      assert before + [e] == h;
      TellsOneMore(before, e, created, DataAfter(before, created));
    }
  }

  /** What the rules read in the data, said of the events. */
  lemma DataMeaning(h: seq<Stamped>, created: real)
    ensures var d := DataAfter(h, created);
            && (d.brakeSet == Some(true) <==> BrakeReportedSet(h))
            && (d.brakeSet == Some(false) <==> BrakeReportedReleased(h))
            && (d.engineRunning == Some(true) <==> EngineReportedRunning(h))
            && (d.speed.Some? && d.speed.value > 0.5 <==> ReportedMoving(h))
            && (d.gear !in [None, Some("park"), Some("P")] <==> GearReportedOther(h))
            && d.lastUpdated == LastHeard(h, created)
  {
    DataIsLastEvents(h, created);
  }

  /** The clock stood still enough between the last event's two readings. */
  predicate PromptlyEvaluated(h: seq<Stamped>) {
    h != [] && h[|h| - 1].evaluatedAt - h[|h| - 1].updatedAt <= 30.0
  }

  /** The vehicle counts as moving, from the last event on. */
  predicate CountsAsMoving(h: seq<Stamped>) {
    PromptlyEvaluated(h) && ReportedMoving(h)
  }

  /** The vehicle counts as parked, from the last event on. */
  predicate CountsAsParked(h: seq<Stamped>) {
    PromptlyEvaluated(h) && !ReportedMoving(h) && BrakeReportedSet(h)
  }

  /** After any history the state is determined by the last brake, engine and speed
      events alone if the last event was evaluated promptly, and unknown otherwise; it
      is never the unsafe state. */
  lemma StateIsLastEvents(h: seq<Stamped>, created: real)
    ensures var state := StateAfter(h, created);
            && (state == Driving <==> CountsAsMoving(h))
            && (state == ParkedRunning <==> CountsAsParked(h) && EngineReportedRunning(h))
            && (state == ParkedSafe <==> CountsAsParked(h) && !EngineReportedRunning(h))
            && state != Unsafe
  {
    DataMeaning(h, created);
  }

  /** The last event, or else the engine's creation, is at most the timeout old. */
  predicate Fresh(h: seq<Stamped>, created: real, now: real) {
    now - LastHeard(h, created) <= 30.0
  }

  const BODY_OPERATIONS := ["slideout_extend", "slideout_retract", "leveling_extend", "leveling_retract"]

  /** What is wrong with an operation, said of the events: each reason exactly, which also
      makes them exclude each other. */
  predicate Explains(h: seq<Stamped>, created: real, operation: string, now: real, verdict: Verdict) {
    var recent := Fresh(h, created, now);
    var stops := operation in BODY_OPERATIONS && CountsAsMoving(h);
    && (verdict == DataTooOld <==> !recent)
    && (verdict == VehicleIsMoving <==> recent && stops)
    && (verdict == WrongState <==> recent && !stops && operation == "slideout_extend" && !CountsAsParked(h))
    && (verdict == BrakeNotSet <==>
          recent && !stops && operation in ["leveling_extend", "leveling_retract"] && BrakeReportedReleased(h))
    && (verdict == NotInPark <==> recent && operation == "engine_start" && GearReportedOther(h))
    && verdict != VehicleUnsafe
  }

  /** Every verdict after every history, explained by the last events. */
  lemma VerdictExplained(h: seq<Stamped>, created: real, operation: string, now: real)
    ensures Explains(h, created, operation, now,
                     Check(StateAfter(h, created), DataAfter(h, created), operation, now))
  {
    DataMeaning(h, created);
    StateIsLastEvents(h, created);
  }

  /** Safety and no more: a slide-out may extend if and only if the last brake event is a
      set one, the last speed event gave no speed above the threshold, and the last event
      was evaluated promptly and is at most the timeout old. */
  lemma SlideoutRule(h: seq<Stamped>, created: real, now: real)
    ensures Check(StateAfter(h, created), DataAfter(h, created), "slideout_extend", now) == Allowed
       <==> && h != []
            && h[|h| - 1].evaluatedAt - h[|h| - 1].updatedAt <= 30.0
            && now - h[|h| - 1].updatedAt <= 30.0
            && (exists i :: LastAt(h, i, {ParkingBrakeSet, ParkingBrakeReleased}) && h[i].event == ParkingBrakeSet)
            && !(exists i :: LastAt(h, i, {VehicleMoving, VehicleStopped})
                             && h[i].speed.Given? && h[i].speed.value > 0.5)
  {
    VerdictExplained(h, created, "slideout_extend", now);
    LastMeaning(h, BRAKE);
    LastMeaning(h, SPEED);
  }

  /** While the last speed event, wherever it is, gave a speed above the threshold, none of
      the four body operations is let through, whatever else has happened: once the last
      event has been evaluated, the vehicle counts as moving or its data is too old. */
  lemma NothingExtendsWhileMoving(h: seq<Stamped>, created: real, now: real, operation: string, i: nat, v: real)
    requires LastAt(h, i, {VehicleMoving, VehicleStopped}) && h[i].speed == Given(v) && v > 0.5
    requires h[|h| - 1].evaluatedAt <= now
    requires operation in ["slideout_extend", "slideout_retract", "leveling_extend", "leveling_retract"]
    ensures Check(StateAfter(h, created), DataAfter(h, created), operation, now) in {DataTooOld, VehicleIsMoving}
  {
    VerdictExplained(h, created, operation, now);
    LastMeaning(h, SPEED);
  }

  /** The other operations, each exactly: leveling needs a brake not last reported released,
      and passes if none was ever reported; starting the engine needs a gear last reported as
      park, and passes if none was; retracting a slide-out needs only that the vehicle does
      not count as moving; any further operation is let through on fresh data. */
  lemma OperationRules(h: seq<Stamped>, created: real, now: real, operation: string)
    ensures var allowed := Check(StateAfter(h, created), DataAfter(h, created), operation, now) == Allowed;
            var still := Fresh(h, created, now) && !CountsAsMoving(h);
            && (operation in ["leveling_extend", "leveling_retract"] ==>
                  (allowed <==> still && !BrakeReportedReleased(h)))
            && (operation == "slideout_retract" ==> (allowed <==> still))
            && (operation == "engine_start" ==> (allowed <==> Fresh(h, created, now) && !GearReportedOther(h)))
            && (operation !in BODY_OPERATIONS && operation != "engine_start" ==> (allowed <==> Fresh(h, created, now)))
  {
    VerdictExplained(h, created, operation, now);
  }
}
