/** The configuration service's two layers of timed caches over one specification file,
    and its check for modified files. Each call happens at one instant. */
module SpecCache {
  import opened Services

  /** What one DGN is specified as; an empty entry is false in the original. */
  datatype DgnSpec = DgnSpec(text: string)

  /** The specification file's content; the original takes an empty one for none. */
  datatype FullSpec = Blank | Sections(dgns: map<int, DgnSpec>)
  {
    predicate Has(dgn: int, entry: DgnSpec) {
      Sections? && dgn in dgns && dgns[dgn] == entry
    }
  }

  datatype Timed<T> = Timed(value: T, storedAt: real)

  predicate Alive<T>(t: Timed<T>, ttl: real, now: real) {
    now < t.storedAt + ttl
  }

  /** A successful reading of the file. */
  datatype Reading = Reading(at: real, spec: FullSpec)

  class ConfigurationService {
    const ttl: real
    const checkInterval: real
    var dgnCache: map<int, Timed<DgnSpec>>
    var specCache: Option<Timed<FullSpec>>
    var fileTimestamps: map<string, real>
    var lastCheck: real
    ghost var readings: seq<Reading>
    ghost var clock: real

    /** A cached specification was read when it was stored; a cached DGN was looked up in
        a specification read less than one lifetime before. */
    ghost predicate Valid()
      reads this
    {
      && ttl > 0.0 && checkInterval == 10.0 && fileTimestamps == map[]
      && (specCache.Some? ==> specCache.value.value.Sections? && specCache.value.storedAt <= clock)
      && (specCache.Some? ==> Reading(specCache.value.storedAt, specCache.value.value) in readings)
      && (forall d :: d in dgnCache ==> dgnCache[d].storedAt <= clock)
      && (forall d :: d in dgnCache ==> ReadWithin(readings, d, dgnCache[d].value, dgnCache[d].storedAt, ttl))
    }

    constructor (ttl: real, now: real)
      requires ttl > 0.0
      ensures Valid() && this.ttl == ttl && clock == now && lastCheck == now && readings == []
      ensures dgnCache == map[] && specCache == None
    {
      this.ttl, checkInterval := ttl, 10.0;
      dgnCache, specCache, fileTimestamps, lastCheck := map[], None, map[], now;
      readings, clock := [], now;
    }

    /** The cached specification has not expired. */
    predicate SpecLives(now: real)
      reads this`specCache
    {
      specCache.Some? && now < specCache.value.storedAt + ttl
    }

    /** `file` is what the file holds now, or `None` if it cannot be read. Whatever is
        answered from a file has been read by then. */
    method GetFullSpec(now: real, file: Option<FullSpec>) returns (spec: Option<FullSpec>, ghost readAt: real)
      requires Valid() && clock <= now
      modifies this`specCache, this`readings, this`clock
      ensures Valid() && clock == now
      ensures spec.Some? ==> Reading(readAt, spec.value) in readings && readAt <= now < readAt + ttl
      ensures old(specCache.Some? && now < specCache.value.storedAt + ttl) ==>
                spec == Some(old(specCache).value.value) && specCache == old(specCache) && readings == old(readings)
      ensures old(specCache.None? || specCache.value.storedAt + ttl <= now) ==> spec == file
      ensures old(specCache.None? || specCache.value.storedAt + ttl <= now) ==>
                specCache == if file.Some? && file.value.Sections? then Some(Timed(file.value, now)) else old(specCache)
      ensures old(specCache.None? || specCache.value.storedAt + ttl <= now) ==>
                readings == if file.Some? then old(readings) + [Reading(now, file.value)] else old(readings)
    {
      clock, readAt := now, now;
      if specCache.Some? && Alive(specCache.value, ttl, now) {
        return Some(specCache.value.value), specCache.value.storedAt;
      }
      spec := file;
      if spec.Some? {
        ghost var before := readings;
        readings := readings + [Reading(now, spec.value)];
        ReadingsGrow(before, readings, ttl);
        if spec.value.Sections? { specCache := Some(Timed(spec.value, now)); }
      }
    }

    /** Whatever is answered stood in the file less than two lifetimes ago: one that the
        DGN may have been cached, and one that the specification it came from may have. */
    method GetDgnSpec(dgn: int, now: real, file: Option<FullSpec>) returns (spec: Option<DgnSpec>, ghost readAt: real)
      requires Valid() && clock <= now
      modifies this`specCache, this`dgnCache, this`readings, this`clock
      ensures Valid() && clock == now
      ensures spec.Some? ==> 0.0 <= now - readAt < 2.0 * ttl && ReadAt(readings, dgn, spec.value, readAt)
      ensures old(dgn in dgnCache && now < dgnCache[dgn].storedAt + ttl) ==>
                && spec == Some(old(dgnCache)[dgn].value)
                && dgnCache == old(dgnCache) && specCache == old(specCache) && readings == old(readings)
      ensures old(dgn !in dgnCache || dgnCache[dgn].storedAt + ttl <= now) && old(SpecLives(now)) ==>
                && LookedUp(Some(old(specCache).value.value), dgn, spec)
                && specCache == old(specCache) && readings == old(readings)
      ensures old(dgn !in dgnCache || dgnCache[dgn].storedAt + ttl <= now) && !old(SpecLives(now)) ==>
                && LookedUp(file, dgn, spec)
                && specCache == (if file.Some? && file.value.Sections? then Some(Timed(file.value, now))
                                 else old(specCache))
                && readings == if file.Some? then old(readings) + [Reading(now, file.value)] else old(readings)
      ensures old(dgn !in dgnCache || dgnCache[dgn].storedAt + ttl <= now) ==>
                dgnCache == if spec.Some? && spec.value.text != "" then old(dgnCache)[dgn := Timed(spec.value, now)]
                            else old(dgnCache)
    {
      readAt := now;
      if dgn in dgnCache && Alive(dgnCache[dgn], ttl, now) {
        clock := now;
        spec := Some(dgnCache[dgn].value);
        ghost var r :| r in readings && r.spec.Has(dgn, spec.value) && 0.0 <= dgnCache[dgn].storedAt - r.at < ttl;
        readAt := r.at;
        return;
      }
      var full;
      full, readAt := GetFullSpec(now, file);
      if full.None? || full.value.Blank? || dgn !in full.value.dgns { return None, readAt; }
      spec := Some(full.value.dgns[dgn]);
      assert ReadAt(readings, dgn, spec.value, readAt) by {
        assert Reading(readAt, full.value) in readings;
      }
      if spec.value.text != "" { dgnCache := dgnCache[dgn := Timed(spec.value, now)]; }
    }

    method ReloadConfiguration()
      modifies this`dgnCache, this`specCache, this`fileTimestamps
      ensures dgnCache == map[] && specCache == None && fileTimestamps == map[]
    {
      dgnCache, specCache, fileTimestamps := map[], None, map[];
    }

    /** `mtimes` are the modification times of the watched files that exist. The check
        wipes the timestamps it has just recorded, so they are empty whenever a check
        begins, and any existing file counts as modified every time. */
    method CheckForUpdates(now: real, mtimes: map<string, real>) returns (changed: bool)
      requires Valid()
      modifies this`dgnCache, this`specCache, this`fileTimestamps, this`lastCheck
      ensures Valid()
      ensures changed <==> now - old(lastCheck) >= 10.0 && exists f :: f in mtimes && mtimes[f] > 0.0
      ensures changed ==> dgnCache == map[] && specCache == None
      ensures !changed ==> dgnCache == old(dgnCache) && specCache == old(specCache)
      ensures lastCheck == if now - old(lastCheck) < 10.0 then old(lastCheck) else now
    {
      if now - lastCheck < checkInterval { return false; }
      lastCheck := now;
      changed := false;
      var todo := mtimes.Keys;
      while todo != {}
        invariant todo <= mtimes.Keys && lastCheck == now
        invariant dgnCache == old(dgnCache) && specCache == old(specCache)
        invariant changed <==> exists f :: f in mtimes && f !in todo && mtimes[f] > 0.0
        invariant fileTimestamps.Keys !! todo && (!changed ==> fileTimestamps == map[])
        decreases todo
      {
        var f :| f in todo;
        todo := todo - {f};
        if mtimes[f] > TimeOr(fileTimestamps, f, 0.0) {
          fileTimestamps := fileTimestamps[f := mtimes[f]];
          changed := true;
        }
      }
      if changed { ReloadConfiguration(); }
    }
  }

  function TimeOr(times: map<string, real>, file: string, default: real): real {
    if file in times then times[file] else default
  }

  /** `spec` is the entry for `dgn` in these contents, if they have one. */
  predicate LookedUp(contents: Option<FullSpec>, dgn: int, spec: Option<DgnSpec>) {
    match contents
    case Some(Sections(dgns)) => if dgn in dgns then spec == Some(dgns[dgn]) else spec == None
    case _ => spec == None
  }

  /** The file held `entry` for `dgn` at a reading made at `at`. */
  ghost predicate ReadAt(readings: seq<Reading>, dgn: int, entry: DgnSpec, at: real) {
    exists r :: r in readings && r.at == at && r.spec.Has(dgn, entry)
  }

  ghost predicate ReadWithin(readings: seq<Reading>, dgn: int, entry: DgnSpec, storedAt: real, ttl: real) {
    exists r :: r in readings && r.spec.Has(dgn, entry) && 0.0 <= storedAt - r.at < ttl
  }

  lemma ReadingsGrow(before: seq<Reading>, after: seq<Reading>, ttl: real)
    requires forall r :: r in before ==> r in after
    ensures forall d, v, t :: ReadWithin(before, d, v, t, ttl) ==> ReadWithin(after, d, v, t, ttl)
  {
  }

  /** Two checks in a row, far enough apart, of files nobody touched: the second reports a
      modification again. */
  method RepeatedCheckIsNotQuiet(service: ConfigurationService, now: real, mtimes: map<string, real>)
    returns (first: bool, second: bool)
    requires service.Valid() && now - service.lastCheck >= service.checkInterval
    modifies service
    ensures first == second && (second <==> exists f :: f in mtimes && mtimes[f] > 0.0)
  {
    first := service.CheckForUpdates(now, mtimes);
    second := service.CheckForUpdates(now + service.checkInterval, mtimes);
  }

  /** The bound is sharp: an answer can be arbitrarily close to two lifetimes old, the
      file having changed long before. */
  method OldestAnswer(ttl: real, margin: real, file: FullSpec, later: Option<FullSpec>, one: int, two: int)
    returns (first: Option<DgnSpec>, second: Option<DgnSpec>, third: Option<DgnSpec>)
    requires 0.0 < margin < ttl && file.Sections? && one in file.dgns
    requires two in file.dgns && one != two && file.dgns[two].text != ""
    ensures first == Some(file.dgns[one]) && second == Some(file.dgns[two]) && third == Some(file.dgns[two])
  {
    var service := new ConfigurationService(ttl, 0.0);
    ghost var readAt;
    first, readAt := service.GetDgnSpec(one, 0.0, Some(file));
    second, readAt := service.GetDgnSpec(two, ttl - margin, later);
    third, readAt := service.GetDgnSpec(two, 2.0 * (ttl - margin), later);
  }
}
