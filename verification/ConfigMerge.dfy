/** The recursive merge of configuration layers and its algebra. */
module ConfigMerge {
  import opened Services

  /** A configuration value: a nested dictionary or anything else. */
  datatype Value = Leaf(text: string) | Dict(entries: map<string, Value>)

  type Config = map<string, Value>

  /** The meaning of the merge: `s` wins, except that two dictionaries unite. */
  function Merge(s: Value, d: Value): Value
    decreases s
  {
    if s.Dict? && d.Dict? then
      Dict(map k | k in s.entries.Keys + d.entries.Keys ::
        if k !in s.entries then d.entries[k]
        else if k !in d.entries then s.entries[k]
        else Merge(s.entries[k], d.entries[k]))
    else s
  }

  method DeepMerge(source: Config, destination: Config) returns (result: Config)
    ensures Dict(result) == Merge(Dict(source), Dict(destination))
    decreases Dict(source)
  {
    result := destination;
    var todo := source.Keys;
    while todo != {}
      invariant todo <= source.Keys
      invariant result.Keys == destination.Keys + (source.Keys - todo)
      invariant forall k :: k in result && (k !in source || k in todo) ==>
                k in destination && result[k] == destination[k]
      invariant forall k :: k in source && k !in todo ==>
        result[k] == if k in destination then Merge(source[k], destination[k]) else source[k]
      decreases todo
    {
      var key :| key in todo;
      todo := todo - {key};
      var value := source[key];
      if key in result && result[key].Dict? && value.Dict? {
        var merged := DeepMerge(value.entries, result[key].entries);
        result := result[key := Dict(merged)];
      } else {
        result := result[key := value];
      }
    }
    assert result == Merge(Dict(source), Dict(destination)).entries;
  }

  // ---------------------------------------------------------------- the path law

  function Lookup(v: Value, path: seq<string>): Option<Value> {
    if path == [] then Some(v)
    else if v.Dict? && path[0] in v.entries then Lookup(v.entries[path[0]], path[1..])
    else None
  }

  /** Somewhere before the end of `path`, `v` holds something that is not a dictionary. */
  predicate Masks(v: Value, path: seq<string>) {
    path != [] && (!v.Dict? || (path[0] in v.entries && Masks(v.entries[path[0]], path[1..])))
  }

  /** What a merged configuration holds at any path: where both have a dictionary, one with
      the keys of both; else the source's value, if it has one; nothing below a
      non-dictionary of the source; the destination's value everywhere else. */
  lemma {:induction false} PathLaw(s: Value, d: Value, path: seq<string>)
    ensures match (Lookup(s, path), Lookup(d, path))
            case (Some(Dict(x)), Some(Dict(y))) =>
              && Lookup(Merge(s, d), path).Some? && Lookup(Merge(s, d), path).value.Dict?
              && Lookup(Merge(s, d), path).value.entries.Keys == x.Keys + y.Keys
            case (Some(x), _) => Lookup(Merge(s, d), path) == Some(x)
            case (None, y) => Lookup(Merge(s, d), path) == if Masks(s, path) then None else y
    decreases path
  {
    if path != [] && s.Dict? && d.Dict? && path[0] in s.entries && path[0] in d.entries {
      PathLaw(s.entries[path[0]], d.entries[path[0]], path[1..]);
    }
  }

  /** Values are equal when their dictionaries hold equal values under equal keys. */
  lemma SameEntries(a: Value, b: Value)
    requires a.Dict? && b.Dict? && a.entries.Keys == b.entries.Keys
    requires forall k :: k in a.entries ==> a.entries[k] == b.entries[k]
    ensures a == b
  {
    assert a.entries == b.entries;
  }

  lemma {:induction false} MergeIdempotent(v: Value)
    ensures Merge(v, v) == v
  {
    if v.Dict? {
      forall k | k in v.entries
        ensures Merge(v.entries[k], v.entries[k]) == v.entries[k] { MergeIdempotent(v.entries[k]); }
      SameEntries(Merge(v, v), v);
    }
  }

  /** Applying a layer a second time, or re-applying the lower one, changes nothing. */
  lemma {:induction false} MergeAbsorbs(s: Value, d: Value)
    ensures Merge(s, Merge(s, d)) == Merge(s, d)
    ensures Merge(Merge(s, d), d) == Merge(s, d)
    decreases s
  {
    if s.Dict? && d.Dict? {
      var m := Merge(s, d);
      forall k | k in m.entries
        ensures k in s.entries ==> Merge(s.entries[k], m.entries[k]) == m.entries[k]
        ensures k in d.entries ==> Merge(m.entries[k], d.entries[k]) == m.entries[k]
      {
        if k in s.entries && k in d.entries { MergeAbsorbs(s.entries[k], d.entries[k]); }
        else if k in s.entries { MergeIdempotent(s.entries[k]); }
        else { MergeIdempotent(d.entries[k]); }
      }
      SameEntries(Merge(s, m), m);
      SameEntries(Merge(m, d), m);
    } else {
      MergeIdempotent(s);
    }
  }

  // ---------------------------------------------------------------- when layers associate

  /** `c` already says something at every place where `a` does. */
  predicate Covers(c: Value, a: Value)
    decreases c
  {
    c.Dict? && a.Dict? ==>
      && a.entries.Keys <= c.entries.Keys
      && forall k :: k in a.entries && k in c.entries ==> Covers(c.entries[k], a.entries[k])
  }

  lemma {:induction false} CoversMeaning(c: Value, a: Value)
    ensures Covers(c, a) <==> Merge(c, a) == c
    decreases c
  {
    if c.Dict? && a.Dict? {
      var m := Merge(c, a);
      forall k | k in a.entries && k in c.entries
        ensures Covers(c.entries[k], a.entries[k]) <==> m.entries[k] == c.entries[k]
      {
        CoversMeaning(c.entries[k], a.entries[k]);
      }
      if Covers(c, a) { SameEntries(m, c); }
    }
  }

  /** The middle layer `b` replaces a dictionary of the bottom layer `a` by something
      else only where the top layer `c` restates everything `a` had there. */
  predicate Associates(c: Value, b: Value, a: Value)
    decreases c
  {
    c.Dict? && a.Dict? ==>
      if b.Dict? then
        forall k :: k in c.entries && k in b.entries && k in a.entries ==>
          Associates(c.entries[k], b.entries[k], a.entries[k])
      else Covers(c, a)
  }

  /** The two ways of bracketing three layers agree if and only if they associate in the
      sense above. */
  lemma {:induction false} AssociativeExactlyWhen(c: Value, b: Value, a: Value)
    ensures Merge(c, Merge(b, a)) == Merge(Merge(c, b), a) <==> Associates(c, b, a)
    decreases c
  {
    if c.Dict? && a.Dict? {
      if b.Dict? {
        var left, right := Merge(c, Merge(b, a)), Merge(Merge(c, b), a);
        forall k | k in c.entries && k in b.entries && k in a.entries
          ensures left.entries[k] == right.entries[k] <==> Associates(c.entries[k], b.entries[k], a.entries[k])
        {
          AssociativeExactlyWhen(c.entries[k], b.entries[k], a.entries[k]);
        }
        assert left.entries.Keys == right.entries.Keys;
        if Associates(c, b, a) { SameEntries(left, right); }
      } else {
        CoversMeaning(c, a);
      }
    }
  }

  /** A non-dictionary between two dictionaries breaks associativity. */
  lemma NotAssociative()
    ensures exists c, b, a: Value :: Merge(c, Merge(b, a)) != Merge(Merge(c, b), a)
  {
    var c, b, a := Dict(map["k" := Leaf("c")]), Leaf("b"), Dict(map["x" := Leaf("a")]);
    assert "x" in a.entries.Keys && "x" !in c.entries.Keys;
    assert !Covers(c, a);
    AssociativeExactlyWhen(c, b, a);
  }

  // ---------------------------------------------------------------- the loader

  class ConfigurationLoader {
    var config: Config

    constructor ()
      ensures config == map[]
    {
      config := map[];
    }

    /** Layers 4 to 7 on top of the configuration that layers 1 to 3 left. */
    method ApplyUpperLayers(systemSettings: Config, userOverrides: Config, dbConfig: Config)
      modifies this
      ensures Dict(config)
           == Merge(Dict(dbConfig), Merge(Dict(userOverrides), Merge(Dict(systemSettings), Dict(old(config)))))
    {
      config := DeepMerge(systemSettings, config);
      config := DeepMerge(userOverrides, config);
      config := DeepMerge(dbConfig, config);
    }
  }

  /** Three upper layers over `base` can be merged beforehand: at every place, a layer
      that breaks up a dictionary of `base` is itself covered by what lies above it. */
  predicate PreMergeable(db: Value, user: Value, system: Value, base: Value)
    decreases db
  {
    db.Dict? && base.Dict? ==>
      if !user.Dict? then Covers(db, base)
      else if !system.Dict? then Covers(Merge(db, user), base)
      else forall k :: k in base.entries ==> PreMergeableAt(db, user, system, base, k)
  }

  predicate PreMergeableAt(db: Value, user: Value, system: Value, base: Value, k: string)
    requires db.Dict? && user.Dict? && system.Dict? && base.Dict? && k in base.entries
    decreases db, 0
  {
    var d, u, s, b := db.entries, user.entries, system.entries, base.entries[k];
    if k in d && k in u && k in s then PreMergeable(d[k], u[k], s[k], b)
    else if k in d && k in u then Associates(d[k], u[k], b)
    else if k in d && k in s then Associates(d[k], s[k], b)
    else if k in u && k in s then Associates(u[k], s[k], b)
    else true
  }

  /** Layers 4 to 7 can be merged once and applied as one layer if and only if they are
      pre-mergeable over what lies below. */
  lemma {:induction false} PreMergedExactlyWhen(db: Value, user: Value, system: Value, base: Value)
    ensures Merge(db, Merge(user, Merge(system, base))) == Merge(Merge(db, Merge(user, system)), base)
       <==> PreMergeable(db, user, system, base)
    decreases db
  {
    if db.Dict? && base.Dict? {
      if !user.Dict? {
        CoversMeaning(db, base);
      } else if !system.Dict? {
        CoversMeaning(Merge(db, user), base);
      } else {
        var left, right := Merge(db, Merge(user, Merge(system, base))), Merge(Merge(db, Merge(user, system)), base);
        assert left.entries.Keys == right.entries.Keys;
        forall k | k in left.entries
          ensures k in base.entries ==>
                    (left.entries[k] == right.entries[k] <==> PreMergeableAt(db, user, system, base, k))
          ensures k !in base.entries ==> left.entries[k] == right.entries[k]
        {
          PreMergedAt(db, user, system, base, k);
        }
        if PreMergeable(db, user, system, base) { SameEntries(left, right); }
      }
    }
  }

  lemma PreMergedAt(db: Value, user: Value, system: Value, base: Value, k: string)
    requires db.Dict? && user.Dict? && system.Dict? && base.Dict?
    requires k in db.entries || k in user.entries || k in system.entries || k in base.entries
    ensures var left, right := Merge(db, Merge(user, Merge(system, base))), Merge(Merge(db, Merge(user, system)), base);
            && k in left.entries && k in right.entries
            && (k in base.entries ==>
                  (left.entries[k] == right.entries[k] <==> PreMergeableAt(db, user, system, base, k)))
            && (k !in base.entries ==> left.entries[k] == right.entries[k])
    decreases db, 0
  {
    if k in base.entries {
      var d, u, s, b := db.entries, user.entries, system.entries, base.entries[k];
      if k in d && k in u && k in s { PreMergedExactlyWhen(d[k], u[k], s[k], b); }
      else if k in d && k in u { AssociativeExactlyWhen(d[k], u[k], b); }
      else if k in d && k in s { AssociativeExactlyWhen(d[k], s[k], b); }
      else if k in u && k in s { AssociativeExactlyWhen(u[k], s[k], b); }
    }
  }
}
