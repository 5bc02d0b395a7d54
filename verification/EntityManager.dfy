/** The entity manager: registration with deduplication by physical device, and three
    indices that must keep agreeing with the entities themselves. */
module EntityManager {
  import opened Services

  type Id = string
  type Protocol = string

  /** A device configuration; `None` and `[]` stand for keys that are not there. */
  datatype Config = Config(
    deviceType: Option<string>,
    area: Option<string>,
    protocol: Option<Protocol>,
    secondary: seq<Protocol>,
    physicalId: Option<string>)

  datatype Registration = Registration(id: Id, config: Config, protocol: Protocol)

  /** Registration answers with the entity that now stands for the device, or fails on an
      index entry for an entity that is gone. */
  datatype Registered = Entity(id: Id) | KeyError(id: Id)

  datatype State = State(
    entities: map<Id, Config>,
    physical: map<string, Id>,
    index: map<Protocol, set<Id>>,
    lights: seq<Id>)

  const EMPTY := State(map[], map[], map[], [])

  function PrimaryOf(c: Config): Protocol {
    if c.protocol.Some? then c.protocol.value else "rvc"
  }

  /** The protocols through which an entity is reachable. */
  function ProtocolsOf(c: Config): set<Protocol> {
    {PrimaryOf(c)} + set p | p in c.secondary
  }

  /** The configuration with the defaults that registration fills in. */
  function Completed(r: Registration): Config {
    r.config.(protocol := Some(if r.config.protocol.Some? then r.config.protocol.value else r.protocol),
              physicalId := Some(DeviceOf(r)))
  }

  function DeviceOf(r: Registration): string {
    if r.config.physicalId.Some? then r.config.physicalId.value else r.id
  }

  function Owned(index: map<Protocol, set<Id>>, p: Protocol): set<Id> {
    if p in index then index[p] else {}
  }

  function AddOwned(index: map<Protocol, set<Id>>, p: Protocol, id: Id): (r: map<Protocol, set<Id>>)
    ensures forall q :: Owned(r, q) == Owned(index, q) + if q == p then {id} else {}
  {
    index[p := Owned(index, p) + {id}]
  }

  /** An existing entity with one more way to reach it. */
  function WithProtocol(c: Config, p: Protocol): Config {
    if p != PrimaryOf(c) && p !in c.secondary then c.(secondary := c.secondary + [p]) else c
  }

  predicate Known(s: State, r: Registration) {
    DeviceOf(r) in s.physical
  }

  /** Registration as a function of the records. */
  function Register(s: State, r: Registration): (State, Registered) {
    var c := Completed(r);
    if Known(s, r) then
      var id := s.physical[DeviceOf(r)];
      if id !in s.entities then (s, KeyError(id))
      else
        (s.(entities := s.entities[id := WithProtocol(s.entities[id], r.protocol)],
            index := AddOwned(s.index, r.protocol, id)), Entity(id))
    else
      (State(s.entities[r.id := c],
             s.physical[DeviceOf(r) := r.id],
             AddOwned(s.index, PrimaryOf(c), r.id),
             if c.deviceType == Some("light") then s.lights + [r.id] else s.lights), Entity(r.id))
  }

  /** The configuration that a new entity gets: the caller's protocol and the entity's own
      id stand in for keys that are not there. */
  predicate FilledIn(r: Registration, device: string, c: Config) {
    && c.deviceType == r.config.deviceType && c.area == r.config.area && c.secondary == r.config.secondary
    && (c.protocol == if r.config.protocol == None then Some(r.protocol) else r.config.protocol)
    && c.physicalId == Some(device)
  }

  /** The entity `c` can be reached through `p`; one that names no protocol through RV-C. */
  predicate ReachedThrough(c: Config, p: Protocol) {
    c.protocol == Some(p) || (c.protocol == None && p == "rvc") || p in c.secondary
  }

  /** The records after a registration for a device that is new, or that stands for the
      entity `e`. */
  predicate NewDevice(s: State, r: Registration, device: string, s': State) {
    && r.id in s'.entities && FilledIn(r, device, s'.entities[r.id])
    && s'.entities == s.entities[r.id := s'.entities[r.id]]
    && s'.physical == s.physical[device := r.id]
    && (s'.lights == if r.config.deviceType == Some("light") then s.lights + [r.id] else s.lights)
    && var p := if r.config.protocol == None then r.protocol else r.config.protocol.value;
       s'.index == s.index[p := (if p in s.index then s.index[p] else {}) + {r.id}]
  }

  predicate KnownDevice(s: State, r: Registration, e: Id, s': State)
    requires e in s.entities
  {
    var c, p := s.entities[e], r.protocol;
    && (s'.entities == if ReachedThrough(c, p) then s.entities
                       else s.entities[e := Config(c.deviceType, c.area, c.protocol, c.secondary + [p], c.physicalId)])
    && s'.physical == s.physical && s'.lights == s.lights
    && s'.index == s.index[p := (if p in s.index then s.index[p] else {}) + {e}]
  }

  /** What a registration does, from its records alone. */
  predicate Registers(s: State, r: Registration, s': State, answer: Registered) {
    var device := if r.config.physicalId == None then r.id else r.config.physicalId.value;
    if device !in s.physical then answer == Entity(r.id) && NewDevice(s, r, device, s')
    else if s.physical[device] !in s.entities then answer == KeyError(s.physical[device]) && s' == s
    else answer == Entity(s.physical[device]) && KnownDevice(s, r, s.physical[device], s')
  }

  lemma RegisterMeaning(s: State, r: Registration)
    ensures Registers(s, r, Register(s, r).0, Register(s, r).1)
  {
    if Known(s, r) && s.physical[DeviceOf(r)] in s.entities {
      ProtocolsMeaning(s.entities[s.physical[DeviceOf(r)]], r.protocol);
      assert s.entities == s.entities[s.physical[DeviceOf(r)] := s.entities[s.physical[DeviceOf(r)]]];
    }
  }

  lemma ProtocolsMeaning(c: Config, p: Protocol)
    ensures p in ProtocolsOf(c) <==> ReachedThrough(c, p)
  {
  }

  /** The light list names each light once and nothing else. */
  ghost predicate LightsRight(s: State) {
    && (forall i, j :: 0 <= i < j < |s.lights| ==> s.lights[i] != s.lights[j])
    && (forall id :: id in s.lights <==> id in s.entities && s.entities[id].deviceType == Some("light"))
  }

  /** The light list stays right if and only if no light's entity is replaced by a new
      device's. */
  lemma LightsKeptExactlyWhen(s: State, r: Registration)
    requires LightsRight(s)
    ensures LightsRight(Register(s, r).0)
       <==> Known(s, r) || !(r.id in s.entities && s.entities[r.id].deviceType == Some("light"))
  {
    var s', light := Register(s, r).0, Some("light");
    if !Known(s, r) {
      assert forall id :: id in s'.lights <==> id in s.lights || (id == r.id && r.config.deviceType == light);
      if r.id in s.lights && r.config.deviceType == light {
        var i :| 0 <= i < |s.lights| && s.lights[i] == r.id;
        assert s'.lights[i] == s'.lights[|s.lights|];
      }
    } else if s.physical[DeviceOf(r)] in s.entities {
      assert forall id :: id in s.entities ==> s'.entities[id].deviceType == s.entities[id].deviceType;
    }
  }

  // ---------------------------------------------------------------- what the indices promise

  /** The protocol index is the scan: it lists under `p` exactly the entities that can be
      reached through `p`. */
  ghost predicate IndexIsScan(s: State) {
    forall p, id :: id in Owned(s.index, p) <==> id in s.entities && p in ProtocolsOf(s.entities[id])
  }

  /** Physical devices and entities correspond one to one. */
  ghost predicate DevicesMatch(s: State) {
    && (forall d :: d in s.physical ==> s.physical[d] in s.entities && s.entities[s.physical[d]].physicalId == Some(d))
    && (forall id :: id in s.entities ==>
          s.entities[id].physicalId.Some? && s.entities[id].physicalId.value in s.physical
          && s.physical[s.entities[id].physicalId.value] == id)
  }

  function ProtocolsBefore(s: State, id: Id): set<Protocol> {
    if id in s.entities then ProtocolsOf(s.entities[id]) else {}
  }

  predicate KeepsIndex(s: State, r: Registration) {
    Known(s, r) || ProtocolsOf(Completed(r)) == {PrimaryOf(Completed(r))} + ProtocolsBefore(s, r.id)
  }

  predicate KeepsDevices(s: State, r: Registration) {
    Known(s, r) || r.id !in s.entities
  }

  /** Registering a device again always keeps the index right. Registering a new device
      keeps it right if and only if its protocols are its primary one plus those its id
      already had: so for a fresh id, exactly when the configuration presets no
      secondary protocol. */
  lemma IndexKeptExactlyWhen(s: State, r: Registration)
    requires IndexIsScan(s) && Register(s, r).1.Entity?
    ensures IndexIsScan(Register(s, r).0) <==> KeepsIndex(s, r)
  {
    var s', c := Register(s, r).0, Completed(r);
    if Known(s, r) {
      var id := s.physical[DeviceOf(r)];
      assert ProtocolsOf(s'.entities[id]) == ProtocolsOf(s.entities[id]) + {r.protocol};
    } else {
      forall p ensures r.id in Owned(s'.index, p) <==> p in {PrimaryOf(c)} + ProtocolsBefore(s, r.id) {
      }
      if IndexIsScan(s') {
        forall p ensures p in ProtocolsOf(c) <==> p in {PrimaryOf(c)} + ProtocolsBefore(s, r.id) {
          assert r.id in Owned(s'.index, p) <==> p in ProtocolsOf(s'.entities[r.id]);
        }
      }
    }
  }

  /** The device map stays a bijection if and only if the device was known or the entity
      id is new. */
  lemma DevicesKeptExactlyWhen(s: State, r: Registration)
    requires DevicesMatch(s)
    ensures Register(s, r).1.Entity?
    ensures DevicesMatch(Register(s, r).0) <==> KeepsDevices(s, r)
  {
    if Known(s, r) { KnownKeepsDevices(s, r); } else { NewKeepsDevices(s, r); }
  }

  lemma KnownKeepsDevices(s: State, r: Registration)
    requires DevicesMatch(s) && Known(s, r)
    ensures Register(s, r).1.Entity? && DevicesMatch(Register(s, r).0)
  {
  }

  lemma NewKeepsDevices(s: State, r: Registration)
    requires DevicesMatch(s) && !Known(s, r)
    ensures DevicesMatch(Register(s, r).0) <==> r.id !in s.entities
  {
    var s' := Register(s, r).0;
    if r.id in s.entities {
      var d := s.entities[r.id].physicalId.value;
      assert d in s'.physical && s'.physical[d] == r.id && s'.entities[r.id].physicalId != Some(d);
    }
  }

  /** A known device keeps its entity: the first registrant wins. */
  lemma FirstRegistrantWins(s: State, r: Registration)
    requires DevicesMatch(s) && Known(s, r)
    ensures Register(s, r).1 == Entity(s.physical[DeviceOf(r)])
    ensures var s' := Register(s, r).0;
            s'.physical == s.physical && s'.entities.Keys == s.entities.Keys && s'.lights == s.lights
            && forall id :: id in s.entities ==> s'.entities[id].protocol == s.entities[id].protocol
  {
  }

  // ---------------------------------------------------------------- whole histories

  function RegisterAll(s: State, rs: seq<Registration>): State
    decreases |rs|
  {
    if rs == [] then s else Register(RegisterAll(s, rs[..|rs| - 1]), rs[|rs| - 1]).0
  }

  /** No configuration presets secondary protocols, and no id is used for two devices. */
  ghost predicate Orderly(rs: seq<Registration>) {
    && (forall i :: 0 <= i < |rs| ==> rs[i].config.secondary == [])
    && (forall i, j :: 0 <= i < |rs| && 0 <= j < |rs| && rs[i].id == rs[j].id ==> DeviceOf(rs[i]) == DeviceOf(rs[j]))
  }

  /** The callers who registered device `d`. */
  function CallersOf(rs: seq<Registration>, d: string): set<Protocol> {
    set i | 0 <= i < |rs| && DeviceOf(rs[i]) == d :: rs[i].protocol
  }

  ghost predicate CallersMatch(rs: seq<Registration>) {
    forall i :: 0 <= i < |rs| ==> rs[i].config.protocol.None? || rs[i].config.protocol == Some(rs[i].protocol)
  }

  ghost predicate RegisteredUnder(rs: seq<Registration>, d: string, id: Id) {
    exists i :: 0 <= i < |rs| && DeviceOf(rs[i]) == d && rs[i].id == id
  }

  /** The device map knows exactly the registered devices, each under an id it was
      registered with. */
  ghost predicate FromHistory(s: State, rs: seq<Registration>) {
    && (forall i :: 0 <= i < |rs| ==> DeviceOf(rs[i]) in s.physical)
    && (forall d {:trigger RegisteredUnder(rs, d, s.physical[d])} ::
          d in s.physical ==> RegisteredUnder(rs, d, s.physical[d]))
  }

  /** The id of the first registration of a device. */
  function FirstId(rs: seq<Registration>, d: string): Option<Id> {
    if rs == [] then None else if DeviceOf(rs[0]) == d then Some(rs[0].id) else FirstId(rs[1..], d)
  }

  lemma {:induction false} FirstIdOneMore(before: seq<Registration>, r: Registration, d: string)
    ensures FirstId(before + [r], d)
         == if FirstId(before, d).None? && DeviceOf(r) == d then Some(r.id) else FirstId(before, d)
    decreases |before|
  {
    if before != [] {
      FirstIdOneMore(before[1..], r, d);
      assert (before + [r])[1..] == before[1..] + [r];
    }
  }

  /** After any history from an empty manager, each registered device belongs to the entity
      that was registered first for it, and no other device is known. */
  lemma {:induction false} FirstRegistrantStays(rs: seq<Registration>, d: string)
    ensures var physical := RegisterAll(EMPTY, rs).physical;
            (if d in physical then Some(physical[d]) else None) == FirstId(rs, d)
    decreases |rs|
  {
    if rs != [] {
      var before, r := rs[..|rs| - 1], rs[|rs| - 1];
      FirstRegistrantStays(before, d);
      FirstIdOneMore(before, r, d);
      assert before + [r] == rs;
    }
  }

  lemma FromHistoryStep(s: State, before: seq<Registration>, r: Registration)
    requires FromHistory(s, before) && DevicesMatch(s)
    ensures FromHistory(Register(s, r).0, before + [r])
  {
    var rs, s' := before + [r], Register(s, r).0;
    forall d {:trigger RegisteredUnder(rs, d, s'.physical[d])} | d in s'.physical
      ensures RegisteredUnder(rs, d, s'.physical[d])
    {
      if d in s.physical {
        assert RegisteredUnder(before, d, s.physical[d]);
        var i :| 0 <= i < |before| && DeviceOf(before[i]) == d && before[i].id == s.physical[d];
        assert rs[i] == before[i];
      } else {
        assert rs[|before|] == r;
      }
    }
  }

  lemma OrderlyIdIsNew(s: State, before: seq<Registration>, r: Registration)
    requires DevicesMatch(s) && FromHistory(s, before) && Orderly(before + [r])
    ensures Known(s, r) || r.id !in s.entities
  {
    var rs := before + [r];
    if r.id in s.entities {
      var d := s.entities[r.id].physicalId.value;
      assert RegisteredUnder(before, d, s.physical[d]);
      var i :| 0 <= i < |before| && DeviceOf(before[i]) == d && before[i].id == r.id;
      assert rs[i].id == rs[|before|].id;
    }
  }

  /** From an empty manager, as long as no id is used for two devices and no configuration
      presets secondary protocols, all four records stay right. */
  lemma {:induction false} OrderlyHistory(rs: seq<Registration>)
    requires Orderly(rs)
    ensures IndexIsScan(RegisterAll(EMPTY, rs))
    ensures DevicesMatch(RegisterAll(EMPTY, rs)) && FromHistory(RegisterAll(EMPTY, rs), rs)
    ensures LightsRight(RegisterAll(EMPTY, rs))
    decreases |rs|
  {
    if rs != [] {
      var before, r := rs[..|rs| - 1], rs[|rs| - 1];
      OrderlyHistory(before);
      assert before + [r] == rs;
      OrderlyStep(RegisterAll(EMPTY, before), before, r);
      OrderlyIdIsNew(RegisterAll(EMPTY, before), before, r);
      LightsKeptExactlyWhen(RegisterAll(EMPTY, before), r);
    }
  }

  lemma OrderlyStep(s: State, before: seq<Registration>, r: Registration)
    requires IndexIsScan(s) && DevicesMatch(s) && FromHistory(s, before) && Orderly(before + [r])
    ensures IndexIsScan(Register(s, r).0) && DevicesMatch(Register(s, r).0)
    ensures FromHistory(Register(s, r).0, before + [r])
  {
    OrderlyIdIsNew(s, before, r);
    DevicesKeptExactlyWhen(s, r);
    assert (before + [r])[|before|] == r;
    assert ProtocolsOf(Completed(r)) == {PrimaryOf(Completed(r))};
    IndexKeptExactlyWhen(s, r);
    FromHistoryStep(s, before, r);
  }

  /** The protocols through which a device can be reached, if it is known. */
  function DeviceProtocols(s: State, d: string): Option<set<Protocol>> {
    if d in s.physical && s.physical[d] in s.entities then Some(ProtocolsOf(s.entities[s.physical[d]])) else None
  }

  function IfAny(callers: set<Protocol>): Option<set<Protocol>> {
    if callers == {} then None else Some(callers)
  }

  /** If every configuration names its caller's protocol, or none, a device is in the end
      reachable through exactly the protocols that registered it. The right-hand side
      does not mention the order of registration. */
  lemma {:induction false} ProtocolsAreCallers(rs: seq<Registration>, d: string)
    requires Orderly(rs) && CallersMatch(rs)
    ensures DeviceProtocols(RegisterAll(EMPTY, rs), d) == IfAny(CallersOf(rs, d))
    decreases |rs|
  {
    if rs != [] {
      var before, r := rs[..|rs| - 1], rs[|rs| - 1];
      assert before + [r] == rs;
      ProtocolsAreCallers(before, d);
      OrderlyHistory(before);
      CallersStep(before, r, d);
      DeviceStep(RegisterAll(EMPTY, before), before, r, d);
    }
  }

  lemma CallersStep(before: seq<Registration>, r: Registration, d: string)
    ensures CallersOf(before + [r], d) == CallersOf(before, d) + if DeviceOf(r) == d then {r.protocol} else {}
  {
    var rs := before + [r];
    forall p ensures p in CallersOf(rs, d) <==> p in CallersOf(before, d) || (DeviceOf(r) == d && p == r.protocol) {
      if p in CallersOf(before, d) {
        var i :| 0 <= i < |before| && DeviceOf(before[i]) == d && before[i].protocol == p;
        assert rs[i] == before[i];
      }
      assert rs[|before|] == r;
    }
  }

  lemma DeviceStep(s: State, before: seq<Registration>, r: Registration, d: string)
    requires DevicesMatch(s) && FromHistory(s, before) && Orderly(before + [r]) && CallersMatch(before + [r])
    requires DeviceProtocols(s, d) == IfAny(CallersOf(before, d))
    ensures DeviceProtocols(Register(s, r).0, d)
         == IfAny(CallersOf(before, d) + if DeviceOf(r) == d then {r.protocol} else {})
  {
    var s' := Register(s, r).0;
    OrderlyIdIsNew(s, before, r);
    assert (before + [r])[|before|] == r;
    if DeviceOf(r) != d {
      assert CallersOf(before, d) + {} == CallersOf(before, d);
      assert DeviceProtocols(s', d) == DeviceProtocols(s, d);
    } else if Known(s, r) {
      var id := s.physical[d];
      assert ProtocolsOf(s'.entities[id]) == ProtocolsOf(s.entities[id]) + {r.protocol};
    } else {
      assert CallersOf(before, d) == {} && {} + {r.protocol} == {r.protocol};
      assert ProtocolsOf(Completed(r)) == {r.protocol};
    }
  }

  /** Two orders of the same registrations leave every device with the same protocols. */
  lemma OrderIndependent(one: seq<Registration>, two: seq<Registration>, d: string)
    requires Orderly(one) && CallersMatch(one) && Orderly(two) && CallersMatch(two)
    requires forall r :: r in one <==> r in two
    ensures DeviceProtocols(RegisterAll(EMPTY, one), d) == DeviceProtocols(RegisterAll(EMPTY, two), d)
  {
    CallersWithin(one, two, d);
    CallersWithin(two, one, d);
    assert CallersOf(one, d) == CallersOf(two, d);
    ProtocolsAreCallers(one, d);
    ProtocolsAreCallers(two, d);
  }

  lemma CallersWithin(one: seq<Registration>, two: seq<Registration>, d: string)
    requires forall r :: r in one ==> r in two
    ensures CallersOf(one, d) <= CallersOf(two, d)
  {
    forall i | 0 <= i < |one| && DeviceOf(one[i]) == d ensures one[i].protocol in CallersOf(two, d) {
      assert one[i] in two;
      var j :| 0 <= j < |two| && two[j] == one[i];
      assert two[j].protocol == one[i].protocol;
    }
  }

  // ---------------------------------------------------------------- the manager

  class EntityManager {
    var entities: map<Id, Config>
    var physicalIdMap: map<string, Id>
    var protocolEntities: map<Protocol, set<Id>>
    var lightEntityIds: seq<Id>

    constructor ()
      ensures Records() == EMPTY
    {
      entities, physicalIdMap, protocolEntities, lightEntityIds := map[], map[], map[], [];
    }

    function Records(): State
      reads this
    {
      State(entities, physicalIdMap, protocolEntities, lightEntityIds)
    }

    method RegisterEntity(r: Registration) returns (result: Registered)
      modifies this
      ensures (Records(), result) == Register(old(Records()), r)
      ensures Registers(old(Records()), r, Records(), result)
    {
      RegisterMeaning(Records(), r);
      var config := r.config;
      if config.protocol.None? { config := config.(protocol := Some(r.protocol)); }
      if config.physicalId.None? { config := config.(physicalId := Some(r.id)); }
      var device := config.physicalId.value;
      if device in physicalIdMap {
        var existing := physicalIdMap[device];
        if existing !in entities { return KeyError(existing); }
        var current, others := PrimaryOf(entities[existing]), entities[existing].secondary;
        if r.protocol != current && r.protocol !in others {
          entities := entities[existing := entities[existing].(secondary := others + [r.protocol])];
        } else {
          assert entities[existing := entities[existing]] == entities;
        }
        protocolEntities := AddOwned(protocolEntities, r.protocol, existing);
        return Entity(existing);
      }
      entities := entities[r.id := config];
      physicalIdMap := physicalIdMap[device := r.id];
      protocolEntities := AddOwned(protocolEntities, config.protocol.value, r.id);
      if config.deviceType == Some("light") { lightEntityIds := lightEntityIds + [r.id]; }
      return Entity(r.id);
    }

    method FilterEntities(deviceType: Option<string>, area: Option<string>, protocol: Option<Protocol>)
      returns (found: map<Id, Config>)
      ensures found.Keys <= entities.Keys && forall id :: id in found ==> found[id] == entities[id]
      ensures forall id :: id in entities ==>
                (id in found <==>
                  && (forall t :: deviceType == Some(t) ==> entities[id].deviceType == Some(t))
                  && (forall a :: area == Some(a) ==> entities[id].area == Some(a))
                  && (forall p :: protocol == Some(p) ==> ReachedThrough(entities[id], p)))
    {
      found := map[];
      var todo := entities.Keys;
      while todo != {}
        invariant todo <= entities.Keys
        invariant found == map id |
          id in entities && id !in todo && Matches(entities[id], deviceType, area, protocol) :: entities[id]
        decreases todo
      {
        var id :| id in todo;
        todo := todo - {id};
        var c := entities[id];
        var matches := true;
        if deviceType.Some? && c.deviceType != deviceType { matches := false; }
        if area.Some? && c.area != area { matches := false; }
        if protocol.Some? && protocol.value != PrimaryOf(c) && protocol.value !in c.secondary { matches := false; }
        if matches { found := found[id := c]; }
      }
      forall id | id in entities
        ensures Matches(entities[id], deviceType, area, protocol) <==>
                  && (forall t :: deviceType == Some(t) ==> entities[id].deviceType == Some(t))
                  && (forall a :: area == Some(a) ==> entities[id].area == Some(a))
                  && (forall p :: protocol == Some(p) ==> ReachedThrough(entities[id], p))
      {
        if protocol.Some? { ProtocolsMeaning(entities[id], protocol.value); }
      }
    }

    /** While the index is right, looking a protocol up and scanning for it agree. */
    method GetEntitiesByProtocol(protocol: Protocol) returns (found: map<Id, Config>)
      ensures found.Keys <= entities.Keys && forall id :: id in found ==> found[id] == entities[id]
      ensures forall id :: id in entities ==> (id in found <==> ReachedThrough(entities[id], protocol))
      ensures IndexIsScan(Records()) ==> found.Keys == Owned(protocolEntities, protocol)
    {
      found := FilterEntities(None, None, Some(protocol));
      forall id | id in entities ensures protocol in ProtocolsOf(entities[id]) <==> id in found {
        ProtocolsMeaning(entities[id], protocol);
      }
    }

    /** Loading forgets the entities but not which devices are known; `order` is that of
        the configurations' dict. It comes through if and only if each configuration of a
        device known before follows the one that brings that device's entity back;
        otherwise it stops at the first that does not. */
    method BulkLoadEntities(configs: map<Id, Config>, order: seq<Id>) returns (error: Option<Id>, ghost loaded: nat)
      requires ListsIds(order, configs.Keys)
      modifies this
      ensures loaded <= |order| && (error.None? ==> loaded == |order|)
      ensures Records()
           == RegisterAll(old(Records()).(entities := map[], lights := []), Loads(configs, order)[..loaded])
      ensures AllAsConfigured(configs, Records())
      ensures error.None? <==> Loadable(old(physicalIdMap), Loads(configs, order))
      ensures error.Some? ==> loaded < |order| && !Backed(old(physicalIdMap), Loads(configs, order), loaded)
      ensures error.Some? ==> Lost(old(physicalIdMap), Loads(configs, order)[loaded], error.value)
      ensures error.None? ==>
                (IndexIsScan(Records())
                 <==> IndexCanFit(old(protocolEntities), old(physicalIdMap), Loads(configs, order)))
    {
      entities, lightEntityIds := map[], [];
      assert forall id :: id in order ==> id in configs;
      ghost var start := Records();
      error, loaded := RegisterEach(Loads(configs, order));
      LoadedAsConfigured(start, configs, order, loaded);
      if error.None? {
        assert Loads(configs, order)[..loaded] == Loads(configs, order);
        LoadedIndexExactlyWhen(start, Loads(configs, order));
      }
    }

    method RegisterEach(rs: seq<Registration>) returns (error: Option<Id>, ghost loaded: nat)
      requires entities == map[]
      modifies this
      ensures loaded <= |rs| && (error.None? ==> loaded == |rs|)
      ensures Records() == RegisterAll(old(Records()), rs[..loaded])
      ensures error.None? <==> Loadable(old(physicalIdMap), rs)
      ensures error.Some? ==> loaded < |rs| && !Backed(old(physicalIdMap), rs, loaded)
      ensures error.Some? ==> Lost(old(physicalIdMap), rs[loaded], error.value)
    {
      ghost var start := Records();
      loaded := 0;
      for i := 0 to |rs|
        invariant loaded == i && Records() == RegisterAll(start, rs[..i])
        invariant BackedUpTo(start.physical, rs, i)
      {
        LoadStep(start, rs, i);
        var result := RegisterEntity(rs[i]);
        if result.KeyError? {
          NotBacked(start.physical, rs, i);
          return Some(result.id), i;
        }
        BackedOneMore(start.physical, rs, i);
        loaded := i + 1;
      }
      assert rs[..|rs|] == rs;
      return None, loaded;
    }
  }

  // ---------------------------------------------------------------- bulk loading

  ghost predicate ListsIds(order: seq<Id>, ids: set<Id>) {
    (forall i, j :: 0 <= i < j < |order| ==> order[i] != order[j]) && forall id :: id in order <==> id in ids
  }

  /** The registrations that loading the configurations in this order makes. */
  function Loads(configs: map<Id, Config>, order: seq<Id>): seq<Registration>
    requires forall id :: id in order ==> id in configs
  {
    seq(|order|, i requires 0 <= i < |order| => Registration(order[i], configs[order[i]], "rvc"))
  }

  /** Registration `j` is the first one of a device not known before. */
  ghost predicate NewAt(physical: map<string, Id>, rs: seq<Registration>, j: nat)
    requires j < |rs|
  {
    DeviceOf(rs[j]) !in physical && forall k :: 0 <= k < j ==> DeviceOf(rs[k]) != DeviceOf(rs[j])
  }

  /** One of the first `n` registrations creates the entity. */
  ghost predicate IsLoaded(physical: map<string, Id>, rs: seq<Registration>, n: nat, id: Id)
    requires n <= |rs|
  {
    exists j :: 0 <= j < n && rs[j].id == id && NewAt(physical, rs, j)
  }

  ghost predicate Seen(rs: seq<Registration>, n: nat, d: string)
    requires n <= |rs|
  {
    exists j :: 0 <= j < n && DeviceOf(rs[j]) == d
  }

  /** If the device of registration `i` was known before, its entity has come back. */
  ghost predicate Backed(physical: map<string, Id>, rs: seq<Registration>, i: nat)
    requires i < |rs|
  {
    DeviceOf(rs[i]) in physical ==> IsLoaded(physical, rs, i, physical[DeviceOf(rs[i])])
  }

  /** The entity that stood for the device of `r`. */
  predicate Lost(physical: map<string, Id>, r: Registration, id: Id) {
    DeviceOf(r) in physical && physical[DeviceOf(r)] == id
  }

  ghost predicate BackedUpTo(physical: map<string, Id>, rs: seq<Registration>, n: nat)
    requires n <= |rs|
  {
    forall i {:trigger Backed(physical, rs, i)} :: 0 <= i < n ==> Backed(physical, rs, i)
  }

  lemma BackedOneMore(physical: map<string, Id>, rs: seq<Registration>, n: nat)
    requires n < |rs| && BackedUpTo(physical, rs, n) && Backed(physical, rs, n)
    ensures BackedUpTo(physical, rs, n + 1)
  {
  }

  lemma NotBacked(physical: map<string, Id>, rs: seq<Registration>, n: nat)
    requires n < |rs| && !Backed(physical, rs, n)
    ensures !Loadable(physical, rs)
  {
  }

  ghost predicate Loadable(physical: map<string, Id>, rs: seq<Registration>) {
    BackedUpTo(physical, rs, |rs|)
  }

  /** How things stand after `n` registrations, on no entities at first. */
  ghost predicate LoadedState(start: State, rs: seq<Registration>, n: nat, s: State)
    requires n <= |rs|
  {
    EntitiesLoaded(start, rs, n, s) && DevicesKept(start, s) && DevicesSeen(start, rs, n, s)
  }

  ghost predicate EntitiesLoaded(start: State, rs: seq<Registration>, n: nat, s: State)
    requires n <= |rs|
  {
    forall id :: id in s.entities <==> IsLoaded(start.physical, rs, n, id)
  }

  ghost predicate DevicesKept(start: State, s: State) {
    && (forall d :: d in start.physical ==> d in s.physical && s.physical[d] == start.physical[d])
    && (forall d :: d in s.physical && d !in start.physical ==> s.physical[d] in s.entities)
  }

  ghost predicate DevicesSeen(start: State, rs: seq<Registration>, n: nat, s: State)
    requires n <= |rs|
  {
    forall d :: d in s.physical <==> d in start.physical || Seen(rs, n, d)
  }

  lemma {:induction false} LoadedAfter(start: State, rs: seq<Registration>, n: nat)
    requires n <= |rs| && start.entities == map[]
    ensures LoadedState(start, rs, n, RegisterAll(start, rs[..n]))
  {
    if n > 0 {
      LoadedAfter(start, rs, n - 1);
      assert rs[..n][..n - 1] == rs[..n - 1];
      LoadedOneMore(start, rs, n - 1, RegisterAll(start, rs[..n - 1]));
    }
  }

  lemma IsLoadedOneMore(physical: map<string, Id>, rs: seq<Registration>, n: nat, id: Id)
    requires n < |rs|
    ensures IsLoaded(physical, rs, n + 1, id)
       <==> IsLoaded(physical, rs, n, id) || (id == rs[n].id && NewAt(physical, rs, n))
  {
  }

  lemma SeenOneMore(rs: seq<Registration>, n: nat, d: string)
    requires n < |rs|
    ensures Seen(rs, n + 1, d) <==> Seen(rs, n, d) || d == DeviceOf(rs[n])
  {
  }

  lemma NewIsUnknown(start: State, rs: seq<Registration>, n: nat, s: State)
    requires n < |rs| && DevicesSeen(start, rs, n, s)
    ensures NewAt(start.physical, rs, n) <==> !Known(s, rs[n])
  {
  }

  lemma EntitiesOneMore(start: State, rs: seq<Registration>, n: nat, s: State)
    requires n < |rs| && EntitiesLoaded(start, rs, n, s) && DevicesSeen(start, rs, n, s)
    ensures EntitiesLoaded(start, rs, n + 1, Register(s, rs[n]).0)
  {
    NewIsUnknown(start, rs, n, s);
    forall id ensures id in Register(s, rs[n]).0.entities <==> IsLoaded(start.physical, rs, n + 1, id) {
      IsLoadedOneMore(start.physical, rs, n, id);
    }
  }

  lemma SeenStep(start: State, rs: seq<Registration>, n: nat, s: State)
    requires n < |rs| && DevicesSeen(start, rs, n, s)
    ensures DevicesSeen(start, rs, n + 1, Register(s, rs[n]).0)
  {
    forall d
      ensures d in Register(s, rs[n]).0.physical <==> d in start.physical || Seen(rs, n + 1, d)
    {
      SeenOneMore(rs, n, d);
    }
  }

  lemma KeptStep(start: State, s: State, r: Registration)
    requires DevicesKept(start, s) && forall d :: d in start.physical ==> d in s.physical
    ensures DevicesKept(start, Register(s, r).0)
  {
  }

  lemma LoadedOneMore(start: State, rs: seq<Registration>, n: nat, s: State)
    requires n < |rs| && LoadedState(start, rs, n, s)
    ensures LoadedState(start, rs, n + 1, Register(s, rs[n]).0)
  {
    EntitiesOneMore(start, rs, n, s);
    KeptStep(start, s, rs[n]);
    SeenStep(start, rs, n, s);
  }

  lemma ErrorExactlyWhen(start: State, rs: seq<Registration>, i: nat, s: State)
    requires i < |rs| && LoadedState(start, rs, i, s)
    ensures Register(s, rs[i]).1.Entity? <==> Backed(start.physical, rs, i)
    ensures Register(s, rs[i]).1.KeyError? ==> Register(s, rs[i]).0 == s
    ensures Register(s, rs[i]).1.KeyError? ==> Lost(start.physical, rs[i], Register(s, rs[i]).1.id)
  {
  }

  /** The next registration goes through if and only if it is backed. */
  lemma LoadStep(start: State, rs: seq<Registration>, i: nat)
    requires i < |rs| && start.entities == map[]
    ensures var s := RegisterAll(start, rs[..i]);
            && RegisterAll(start, rs[..i + 1]) == Register(s, rs[i]).0
            && (Register(s, rs[i]).1.Entity? <==> Backed(start.physical, rs, i))
            && (Register(s, rs[i]).1.KeyError? ==> Register(s, rs[i]).0 == s)
            && (Register(s, rs[i]).1.KeyError? ==> Lost(start.physical, rs[i], Register(s, rs[i]).1.id))
  {
    LoadedAfter(start, rs, i);
    ErrorExactlyWhen(start, rs, i, RegisterAll(start, rs[..i]));
    assert rs[..i + 1][..i] == rs[..i];
  }

  /** A loaded entity is as it was configured, under RV-C if no protocol was, and at most
      reachable through RV-C besides. */
  predicate AsConfigured(configs: map<Id, Config>, id: Id, c: Config) {
    && id in configs && c.deviceType == configs[id].deviceType && c.area == configs[id].area
    && (c.protocol == if configs[id].protocol == None then Some("rvc") else configs[id].protocol)
    && (c.secondary == configs[id].secondary || c.secondary == configs[id].secondary + ["rvc"])
  }

  ghost predicate AllAsConfigured(configs: map<Id, Config>, s: State) {
    forall id :: id in s.entities ==> AsConfigured(configs, id, s.entities[id])
  }

  /** Loading onto no entities makes every entity as it was configured, whatever devices
      were known before. */
  lemma {:induction false} LoadedAsConfigured(start: State, configs: map<Id, Config>, order: seq<Id>, n: nat)
    requires start.entities == map[] && n <= |order| && forall id :: id in order ==> id in configs
    ensures AllAsConfigured(configs, RegisterAll(start, Loads(configs, order)[..n]))
  {
    var rs := Loads(configs, order);
    if n > 0 {
      LoadedAsConfigured(start, configs, order, n - 1);
      assert rs[..n][..n - 1] == rs[..n - 1];
      var s, r := RegisterAll(start, rs[..n - 1]), rs[n - 1];
      assert order[n - 1] in order;
      forall id | id in Register(s, r).0.entities ensures AsConfigured(configs, id, Register(s, r).0.entities[id]) {
        StaysAsConfigured(configs, s, r, id);
      }
    }
  }

  lemma StaysAsConfigured(configs: map<Id, Config>, s: State, r: Registration, id: Id)
    requires r.id in configs && r.config == configs[r.id] && r.protocol == "rvc"
    requires id in s.entities ==> AsConfigured(configs, id, s.entities[id])
    requires id in Register(s, r).0.entities
    ensures AsConfigured(configs, id, Register(s, r).0.entities[id])
  {
    RegisterMeaning(s, r);
    if id in s.entities && s.entities[id].secondary == configs[id].secondary + ["rvc"] {
      assert s.entities[id].secondary[|configs[id].secondary|] == "rvc";
    }
  }

  function LoadOf(configs: map<Id, Config>, id: Id): string
    requires id in configs
  {
    DeviceOf(Registration(id, configs[id], "rvc"))
  }

  lemma ListingOf(ids: set<Id>) returns (order: seq<Id>)
    ensures ListsIds(order, ids)
  {
    if ids == {} {
      order := [];
    } else {
      var id :| id in ids;
      var rest := ListingOf(ids - {id});
      order := [id] + rest;
    }
  }

  lemma ListingJoined(one: seq<Id>, ones: set<Id>, two: seq<Id>, twos: set<Id>)
    requires ListsIds(one, ones) && ListsIds(two, twos) && ones !! twos
    ensures ListsIds(one + two, ones + twos)
  {
    forall i, j | 0 <= i < j < |one + two| ensures (one + two)[i] != (one + two)[j] {
      assert i < |one| ==> (one + two)[i] in one;
      assert j >= |one| ==> (one + two)[j] in two;
    }
  }

  /** Loading comes through in every order if and only if no configuration's device was
      known before. */
  lemma LoadsInEveryOrderExactlyWhen(physical: map<string, Id>, configs: map<Id, Config>)
    ensures (forall order :: ListsIds(order, configs.Keys) ==> Loadable(physical, Loads(configs, order)))
       <==> forall id :: id in configs ==> LoadOf(configs, id) !in physical
  {
    if id :| id in configs && LoadOf(configs, id) in physical {
      var rest := ListingOf(configs.Keys - {id});
      assert ListsIds([id], {id});
      ListingJoined([id], {id}, rest, configs.Keys - {id});
      var order := [id] + rest;
      assert {id} + (configs.Keys - {id}) == configs.Keys;
      assert !Backed(physical, Loads(configs, order), 0);
    }
  }

  /** The entities of the known devices among the configurations. */
  function Needed(physical: map<string, Id>, configs: map<Id, Config>): set<Id> {
    set id | id in configs && LoadOf(configs, id) in physical :: physical[LoadOf(configs, id)]
  }

  /** They can all be created first: each one is configured, for a new device of its own. */
  ghost predicate CanComeFirst(physical: map<string, Id>, configs: map<Id, Config>) {
    var needed := Needed(physical, configs);
    && (forall id :: id in needed ==> id in configs && LoadOf(configs, id) !in physical)
    && (forall id, other :: id in needed && other in needed && id in configs && other in configs && id != other ==>
          LoadOf(configs, id) != LoadOf(configs, other))
  }

  /** Loading comes through in some order if and only if the entities of the known devices
      can come first. In particular it fails in every order if one is not configured. */
  lemma LoadsInSomeOrderExactlyWhen(physical: map<string, Id>, configs: map<Id, Config>)
    ensures (exists order :: ListsIds(order, configs.Keys) && Loadable(physical, Loads(configs, order)))
       <==> CanComeFirst(physical, configs)
  {
    if order :| ListsIds(order, configs.Keys) && Loadable(physical, Loads(configs, order)) {
      LoadedComeFirst(physical, configs, order);
    }
    if CanComeFirst(physical, configs) {
      var order := NeededFirst(physical, configs);
    }
  }

  lemma LoadedComeFirst(physical: map<string, Id>, configs: map<Id, Config>, order: seq<Id>)
    requires ListsIds(order, configs.Keys) && Loadable(physical, Loads(configs, order))
    ensures CanComeFirst(physical, configs)
  {
    var rs := Loads(configs, order);
    forall id | id in Needed(physical, configs) ensures IsLoaded(physical, rs, |rs|, id) && id in configs {
      var c :| c in configs && LoadOf(configs, c) in physical && physical[LoadOf(configs, c)] == id;
      assert c in order;
      var i :| 0 <= i < |order| && order[i] == c;
      assert Backed(physical, rs, i);
      var j :| 0 <= j < i && rs[j].id == id && NewAt(physical, rs, j);
      assert order[j] in order;
    }
  }

  lemma NeededFirst(physical: map<string, Id>, configs: map<Id, Config>) returns (order: seq<Id>)
    requires CanComeFirst(physical, configs)
    ensures ListsIds(order, configs.Keys) && Loadable(physical, Loads(configs, order))
  {
    var needed := Needed(physical, configs);
    var first := ListingOf(needed);
    var rest := ListingOf(configs.Keys - needed);
    ListingJoined(first, needed, rest, configs.Keys - needed);
    assert needed + (configs.Keys - needed) == configs.Keys;
    order := first + rest;
    var rs := Loads(configs, order);
    forall j | 0 <= j < |first| ensures NewAt(physical, rs, j) {
      assert order[j] in first;
      forall k | 0 <= k < j ensures DeviceOf(rs[k]) != DeviceOf(rs[j]) { assert order[k] in first; }
    }
    forall i {:trigger Backed(physical, rs, i)} | 0 <= i < |rs| ensures Backed(physical, rs, i) {
      if DeviceOf(rs[i]) in physical {
        var id := physical[DeviceOf(rs[i])];
        assert order[i] in order && LoadOf(configs, order[i]) in physical && id in needed;
        assert i >= |first|;
        assert id in first;
        var j :| 0 <= j < |first| && first[j] == id;
        assert rs[j].id == id && NewAt(physical, rs, j);
      }
    }
  }

  // ---------------------------------------------------------------- the index after loading

  /** The entity that registration `i` finds for its device. */
  function TargetOf(physical: map<string, Id>, rs: seq<Registration>, i: nat): Option<Id>
    requires i < |rs|
  {
    var d := DeviceOf(rs[i]);
    if d in physical then Some(physical[d]) else FirstId(rs[..i], d)
  }

  /** Registration `i` enters the entity under the protocol: its primary one if it creates
      the entity, its caller's otherwise. */
  ghost predicate Enters(physical: map<string, Id>, rs: seq<Registration>, i: nat, id: Id, p: Protocol)
    requires i < |rs|
  {
    if NewAt(physical, rs, i) then id == rs[i].id && p == PrimaryOf(Completed(rs[i]))
    else TargetOf(physical, rs, i) == Some(id) && p == rs[i].protocol
  }

  ghost predicate Presets(physical: map<string, Id>, rs: seq<Registration>, i: nat, id: Id, p: Protocol)
    requires i < |rs|
  {
    NewAt(physical, rs, i) && id == rs[i].id && p in rs[i].config.secondary
  }

  ghost predicate Entered(physical: map<string, Id>, rs: seq<Registration>, n: nat, id: Id, p: Protocol)
    requires n <= |rs|
  {
    exists i :: 0 <= i < n && Enters(physical, rs, i, id, p)
  }

  ghost predicate Preset(physical: map<string, Id>, rs: seq<Registration>, n: nat, id: Id, p: Protocol)
    requires n <= |rs|
  {
    exists i :: 0 <= i < n && Presets(physical, rs, i, id, p)
  }

  ghost predicate Reachable(s: State, id: Id, p: Protocol) {
    id in s.entities && p in ProtocolsOf(s.entities[id])
  }

  /** After `n` registrations: the index has gained exactly what was entered, and entities are
      reachable through exactly what was entered or preset. */
  ghost predicate IndexGrown(start: State, rs: seq<Registration>, n: nat, s: State)
    requires n <= |rs|
  {
    forall id, p :: id in Owned(s.index, p) <==> id in Owned(start.index, p) || Entered(start.physical, rs, n, id, p)
  }

  ghost predicate ReachGrown(start: State, rs: seq<Registration>, n: nat, s: State)
    requires n <= |rs|
  {
    forall id, p :: Reachable(s, id, p) <==>
      Entered(start.physical, rs, n, id, p) || Preset(start.physical, rs, n, id, p)
  }

  /** New devices belong to their first registrants. */
  ghost predicate DevicesFirst(start: State, rs: seq<Registration>, n: nat, s: State)
    requires n <= |rs|
  {
    forall d :: d !in start.physical ==> (if d in s.physical then Some(s.physical[d]) else None) == FirstId(rs[..n], d)
  }

  lemma EnteredOneMore(physical: map<string, Id>, rs: seq<Registration>, n: nat, id: Id, p: Protocol)
    requires n < |rs|
    ensures Entered(physical, rs, n + 1, id, p) <==> Entered(physical, rs, n, id, p) || Enters(physical, rs, n, id, p)
    ensures Preset(physical, rs, n + 1, id, p) <==> Preset(physical, rs, n, id, p) || Presets(physical, rs, n, id, p)
  {
  }

  lemma FirstStep(start: State, rs: seq<Registration>, n: nat, s: State)
    requires n < |rs| && DevicesFirst(start, rs, n, s) && DevicesKept(start, s)
    ensures DevicesFirst(start, rs, n + 1, Register(s, rs[n]).0)
  {
    var s' := Register(s, rs[n]).0;
    forall d | d !in start.physical
      ensures (if d in s'.physical then Some(s'.physical[d]) else None) == FirstId(rs[..n + 1], d)
    {
      assert rs[..n + 1] == rs[..n] + [rs[n]];
      FirstIdOneMore(rs[..n], rs[n], d);
    }
  }

  /** What a known device's entity is. */
  lemma TargetKnown(start: State, rs: seq<Registration>, n: nat, s: State)
    requires n < |rs| && DevicesFirst(start, rs, n, s) && DevicesKept(start, s) && Known(s, rs[n])
    ensures TargetOf(start.physical, rs, n) == Some(s.physical[DeviceOf(rs[n])])
  {
  }

  lemma IndexStep(start: State, rs: seq<Registration>, n: nat, s: State)
    requires n < |rs| && LoadedState(start, rs, n, s) && DevicesFirst(start, rs, n, s) && IndexGrown(start, rs, n, s)
    requires Register(s, rs[n]).1.Entity?
    ensures IndexGrown(start, rs, n + 1, Register(s, rs[n]).0)
  {
    EntersWhat(start, rs, n, s);
    forall id, p ensures id in Owned(Register(s, rs[n]).0.index, p) <==>
                           id in Owned(start.index, p) || Entered(start.physical, rs, n + 1, id, p)
    {
      EnteredOneMore(start.physical, rs, n, id, p);
      IndexOneMore(s, rs[n], id, p);
    }
  }

  /** What the next registration enters, said of the records it meets. */
  lemma EntersWhat(start: State, rs: seq<Registration>, n: nat, s: State)
    requires n < |rs| && DevicesSeen(start, rs, n, s) && DevicesKept(start, s) && DevicesFirst(start, rs, n, s)
    ensures forall id, p :: Enters(start.physical, rs, n, id, p) <==>
              if Known(s, rs[n]) then id == s.physical[DeviceOf(rs[n])] && p == rs[n].protocol
              else id == rs[n].id && p == PrimaryOf(Completed(rs[n]))
  {
    NewIsUnknown(start, rs, n, s);
    if Known(s, rs[n]) { TargetKnown(start, rs, n, s); }
  }

  /** How one registration changes the index. */
  lemma IndexOneMore(s: State, r: Registration, id: Id, p: Protocol)
    requires Register(s, r).1.Entity?
    ensures id in Owned(Register(s, r).0.index, p) <==>
              id in Owned(s.index, p)
              || (if Known(s, r) then id == s.physical[DeviceOf(r)] && p == r.protocol
                  else id == r.id && p == PrimaryOf(Completed(r)))
  {
  }

  ghost predicate DistinctIds(rs: seq<Registration>) {
    forall i, j :: 0 <= i < j < |rs| ==> rs[i].id != rs[j].id
  }

  lemma ReachStep(start: State, rs: seq<Registration>, n: nat, s: State)
    requires n < |rs| && LoadedState(start, rs, n, s) && DevicesFirst(start, rs, n, s) && ReachGrown(start, rs, n, s)
    requires Register(s, rs[n]).1.Entity? && DistinctIds(rs)
    ensures ReachGrown(start, rs, n + 1, Register(s, rs[n]).0)
  {
    var r, s' := rs[n], Register(s, rs[n]).0;
    NewIsUnknown(start, rs, n, s);
    if Known(s, r) { TargetKnown(start, rs, n, s); } else { NewIdIsFree(start, rs, n, s); }
    forall id, p ensures Reachable(s', id, p) <==>
                           Entered(start.physical, rs, n + 1, id, p) || Preset(start.physical, rs, n + 1, id, p)
    {
      EnteredOneMore(start.physical, rs, n, id, p);
      ReachOneMore(s, r, id, p);
    }
  }

  /** How one registration changes what is reachable. */
  lemma ReachOneMore(s: State, r: Registration, id: Id, p: Protocol)
    requires Register(s, r).1.Entity? && (Known(s, r) || r.id !in s.entities)
    ensures Reachable(Register(s, r).0, id, p) <==>
              Reachable(s, id, p)
              || (if Known(s, r) then id == s.physical[DeviceOf(r)] && p == r.protocol
                  else id == r.id && (p == PrimaryOf(Completed(r)) || p in r.config.secondary))
  {
    if Known(s, r) {
      var e := s.physical[DeviceOf(r)];
      assert ProtocolsOf(WithProtocol(s.entities[e], r.protocol)) == ProtocolsOf(s.entities[e]) + {r.protocol};
    }
  }

  lemma NewIdIsFree(start: State, rs: seq<Registration>, n: nat, s: State)
    requires n < |rs| && EntitiesLoaded(start, rs, n, s) && DistinctIds(rs)
    ensures rs[n].id !in s.entities
  {
  }

  lemma {:induction false} GrownAfter(start: State, rs: seq<Registration>, n: nat)
    requires n <= |rs| && start.entities == map[] && DistinctIds(rs) && BackedUpTo(start.physical, rs, n)
    ensures var s := RegisterAll(start, rs[..n]);
            IndexGrown(start, rs, n, s) && ReachGrown(start, rs, n, s) && DevicesFirst(start, rs, n, s)
  {
    if n > 0 {
      GrownAfter(start, rs, n - 1);
      LoadsOneMore(start, rs, n - 1);
      GrownOneMore(start, rs, n - 1, RegisterAll(start, rs[..n - 1]));
    }
  }

  lemma LoadsOneMore(start: State, rs: seq<Registration>, n: nat)
    requires n < |rs| && start.entities == map[] && Backed(start.physical, rs, n)
    ensures var s := RegisterAll(start, rs[..n]);
            && LoadedState(start, rs, n, s) && Register(s, rs[n]).1.Entity?
            && RegisterAll(start, rs[..n + 1]) == Register(s, rs[n]).0
  {
    LoadedAfter(start, rs, n);
    LoadStep(start, rs, n);
  }

  lemma GrownOneMore(start: State, rs: seq<Registration>, n: nat, s: State)
    requires n < |rs| && LoadedState(start, rs, n, s) && DevicesFirst(start, rs, n, s)
    requires IndexGrown(start, rs, n, s) && ReachGrown(start, rs, n, s)
    requires Register(s, rs[n]).1.Entity? && DistinctIds(rs)
    ensures var s' := Register(s, rs[n]).0;
            IndexGrown(start, rs, n + 1, s') && ReachGrown(start, rs, n + 1, s') && DevicesFirst(start, rs, n + 1, s')
  {
    FirstStep(start, rs, n, s);
    IndexStep(start, rs, n, s);
    ReachStep(start, rs, n, s);
  }

  /** After a load that comes through, the index is the scan if and only if every old entry is
      for a protocol entered or preset for that entity, and every preset one is entered or is
      an old entry. In particular it must be, from an empty index, without presets. */
  lemma LoadedIndexExactlyWhen(start: State, rs: seq<Registration>)
    requires start.entities == map[] && DistinctIds(rs) && Loadable(start.physical, rs)
    ensures IndexIsScan(RegisterAll(start, rs)) <==> IndexCanFit(start.index, start.physical, rs)
  {
    GrownAfter(start, rs, |rs|);
    assert rs[..|rs|] == rs;
    var s := RegisterAll(start, rs);
    assert IndexIsScan(s) <==> forall id, p :: id in Owned(s.index, p) <==> Reachable(s, id, p);
  }

  ghost predicate IndexCanFit(index: map<Protocol, set<Id>>, physical: map<string, Id>, rs: seq<Registration>) {
    OldEntriesFit(index, physical, rs) && PresetsEntered(index, physical, rs)
  }

  ghost predicate OldEntriesFit(index: map<Protocol, set<Id>>, physical: map<string, Id>, rs: seq<Registration>) {
    forall id, p :: id in Owned(index, p) ==> Entered(physical, rs, |rs|, id, p) || Preset(physical, rs, |rs|, id, p)
  }

  ghost predicate PresetsEntered(index: map<Protocol, set<Id>>, physical: map<string, Id>, rs: seq<Registration>) {
    forall id, p :: Preset(physical, rs, |rs|, id, p) ==> Entered(physical, rs, |rs|, id, p) || id in Owned(index, p)
  }

  predicate Matches(c: Config, deviceType: Option<string>, area: Option<string>, protocol: Option<Protocol>) {
    && (deviceType.Some? ==> c.deviceType == deviceType)
    && (area.Some? ==> c.area == area)
    && (protocol.Some? ==> protocol.value in ProtocolsOf(c))
  }
}
