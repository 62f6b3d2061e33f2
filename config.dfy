/**
 * The parameter materialiser: `parse_param_yaml` in window_asdf.py.
 *
 * A loaded YAML document holds a `default` option record and a `components`
 * mapping from component name to either null or an override record.  Each
 * component gets a copy of `default` with its override written over it key
 * by key, and then the two reserved option names are removed -- except that
 * the removal sits after the `continue` taken for a null override, so a
 * component without an override keeps `default` exactly, reserved keys
 * included.
 */
module Config {
  import opened Wrappers

  /** A value as the YAML safe loader produces it. */
  datatype Value =
    | Null
    | Bool(b: bool)
    | Int(i: int)
    | Real(r: real)
    | Str(s: string)
    | List(items: seq<Value>)
    | Mapping(m: map<string, Value>)

  /**
   * The failures of `parse_param_yaml`: a KeyError for a missing top-level
   * key, and the TypeError/AttributeError raised when something the code
   * indexes, iterates with `.items()`, assigns into or pops from is not a
   * mapping.
   */
  datatype ParamError = MissingKey(key: string) | NotAMapping

  /** The option names `parse_param_yaml` pops as not in use (lines 31-33). */
  const ReservedKeys: seq<string> := ["instrument_merge_flag", "write_window_with_phase"]

  predicate IsReserved(k: string) {
    k in ReservedKeys
  }

  /**
   * The record one component ends up with, given `default` and the
   * component's override; None where Python raises.
   */
  function Resolve(default: Value, override: Value): (r: Option<Value>)
    ensures override.Null? ==> r == Some(default)
    ensures r.Some? <==> override.Null? || (override.Mapping? && default.Mapping?)
    ensures override.Mapping? && r.Some? ==>
      && r.value.Mapping?
      && (forall k :: k in r.value.m <==> (k in default.m || k in override.m) && !IsReserved(k))
      && (forall k :: k in override.m && !IsReserved(k) ==> r.value.m[k] == override.m[k])
      && (forall k :: k in default.m && k !in override.m && !IsReserved(k) ==> r.value.m[k] == default.m[k])
  {
    if override.Null? then Some(default)
    else if override.Mapping? && default.Mapping? then
      Some(Mapping((default.m + override.m) - set k | k in ReservedKeys))
    else None
  }

  /** Whether every component of a `components` mapping can be resolved against `default`. */
  predicate AllResolvable(default: Value, comps: map<string, Value>) {
    forall c :: c in comps ==> Resolve(default, comps[c]).Some?
  }

  /** What `parse_param_yaml(param)` returns or raises. */
  function Materialize(param: Value): (r: Result<map<string, Value>, ParamError>)
    ensures param.Mapping? && "default" !in param.m ==> r == Failure(MissingKey("default"))
    ensures param.Mapping? && "default" in param.m && "components" !in param.m ==>
      r == Failure(MissingKey("components"))
    ensures r.Failure? && !(param.Mapping? && ("default" !in param.m || "components" !in param.m)) ==>
      r.error == NotAMapping
    ensures r.Success? <==>
      && param.Mapping? && "default" in param.m && "components" in param.m
      && param.m["components"].Mapping?
      && forall c :: c in param.m["components"].m ==>
           || param.m["components"].m[c].Null?
           || (param.m["components"].m[c].Mapping? && param.m["default"].Mapping?)
    ensures r.Success? ==>
      && param.Mapping? && "default" in param.m && "components" in param.m
      && param.m["components"].Mapping?
      && r.value.Keys == param.m["components"].m.Keys
      && forall c :: c in r.value ==>
           Resolve(param.m["default"], param.m["components"].m[c]) == Some(r.value[c])
  {
    if !param.Mapping? then Failure(NotAMapping)
    else if "default" !in param.m then Failure(MissingKey("default"))
    else if "components" !in param.m then Failure(MissingKey("components"))
    else if !param.m["components"].Mapping? then Failure(NotAMapping)
    else
      var default, comps := param.m["default"], param.m["components"].m;
      if !AllResolvable(default, comps) then Failure(NotAMapping)
      else Success(map c | c in comps :: Resolve(default, comps[c]).value)
  }

  /**
   * Lines 28-33 for one component: write each override key over the copy of
   * `default`, then pop the reserved keys.
   */
  method ApplyOverride(default: map<string, Value>, settings: map<string, Value>)
    returns (entry: map<string, Value>)
    ensures Resolve(Mapping(default), Mapping(settings)) == Some(Mapping(entry))
  {
    entry := default;
    var pending := settings.Keys;
    while pending != {}
      invariant pending <= settings.Keys
      invariant entry == default + map k | k in settings && k !in pending :: settings[k]
      decreases pending
    {
      var k :| k in pending;
      pending := pending - {k};
      entry := entry[k := settings[k]];
    }
    assert entry == default + settings;
    for i := 0 to |ReservedKeys|
      invariant entry == (default + settings) - set j | 0 <= j < i :: ReservedKeys[j]
    {
      entry := entry - {ReservedKeys[i]};
    }
    assert (set j | 0 <= j < |ReservedKeys| :: ReservedKeys[j]) == set k | k in ReservedKeys;
  }

  /** The loop of `parse_param_yaml`, building the result dictionary one component at a time. */
  method ParseParamYaml(param: Value) returns (r: Result<map<string, Value>, ParamError>)
    ensures r == Materialize(param)
  {
    if !param.Mapping? {
      return Failure(NotAMapping);
    }
    if "default" !in param.m {
      return Failure(MissingKey("default"));
    }
    var default := param.m["default"];
    if "components" !in param.m {
      return Failure(MissingKey("components"));
    }
    var compSettings := param.m["components"];
    if !compSettings.Mapping? {
      return Failure(NotAMapping);
    }
    var comps := compSettings.m;
    var results: map<string, Value> := map[];
    var todo := comps.Keys;
    while todo != {}
      invariant todo <= comps.Keys
      invariant forall c :: c in comps && c !in todo ==> Resolve(default, comps[c]).Some?
      invariant results == map c | c in comps && c !in todo :: Resolve(default, comps[c]).value
      decreases todo
    {
      var comp :| comp in todo;
      todo := todo - {comp};
      var settings := comps[comp];
      // the copy of `default` this component starts from
      results := results[comp := default];
      if settings.Null? {
        continue;
      }
      if !settings.Mapping? || !default.Mapping? {
        assert Resolve(default, comps[comp]).None?;
        return Failure(NotAMapping);
      }
      var entry := ApplyOverride(default.m, settings.m);
      results := results[comp := Mapping(entry)];
    }
    assert AllResolvable(default, comps);
    assert results == map c | c in comps :: Resolve(default, comps[c]).value;
    return Success(results);
  }

  /** The components mapping of a template that has one. */
  function Components(param: Value): map<string, Value>
    requires param.Mapping? && "components" in param.m && param.m["components"].Mapping?
  {
    param.m["components"].m
  }

  /**
   * A component with an override: each non-reserved override key takes the
   * override's value, each other non-reserved key of `default` keeps its
   * value, nothing else is present, and the reserved names are gone even when
   * the override sets them.
   */
  lemma OverriddenComponent(param: Value, c: string, k: string)
    requires Materialize(param).Success?
    requires c in Components(param) && Components(param)[c].Mapping?
    ensures var r, d, o := Materialize(param).value, param.m["default"], Components(param)[c];
      && c in r && r[c].Mapping? && d.Mapping?
      && (k in r[c].m <==> (k in d.m || k in o.m) && !IsReserved(k))
      && (k in o.m && !IsReserved(k) ==> r[c].m[k] == o.m[k])
      && (k !in o.m && k in d.m && !IsReserved(k) ==> r[c].m[k] == d.m[k])
  {
  }

  /**
   * A component whose override is null gets `default` exactly: the
   * `continue` skips the removal, so reserved keys in `default` survive.
   */
  lemma NullOverrideKeepsDefault(param: Value, c: string)
    requires Materialize(param).Success?
    requires c in Components(param) && Components(param)[c].Null?
    ensures Materialize(param).value[c] == param.m["default"]
  {
  }

  /**
   * Each component's record depends only on `default` and its own override:
   * the deep copy keeps one component's override from reaching another.
   */
  lemma ComponentsIndependent(p: Value, q: Value, c: string)
    requires Materialize(p).Success? && Materialize(q).Success?
    requires p.m["default"] == q.m["default"]
    requires c in Components(p) && c in Components(q) && Components(p)[c] == Components(q)[c]
    ensures Materialize(p).value[c] == Materialize(q).value[c]
  {
  }

  /** A template whose default carries a reserved key and whose component `Z` has no override. */
  function ReservedInDefault(): Value {
    Mapping(map[
      "default" := Mapping(map["min_period" := Int(17), "instrument_merge_flag" := Bool(true)]),
      "components" := Mapping(map["Z" := Null, "N" := Mapping(map["min_period" := Int(20)])])])
  }

  /** The reserved key survives for `Z` (no override) and is removed for `N`. */
  lemma ReservedKeySurvivesNullOverride()
    ensures Materialize(ReservedInDefault()).Success?
    ensures "instrument_merge_flag" in Materialize(ReservedInDefault()).value["Z"].m
    ensures "instrument_merge_flag" !in Materialize(ReservedInDefault()).value["N"].m
  {
  }

  /** An example: `Z` inherits both periods, `N` overrides `min_period`. */
  lemma PeriodsExample()
    ensures Materialize(Mapping(map[
              "default" := Mapping(map["min_period" := Int(17), "max_period" := Int(40)]),
              "components" := Mapping(map["Z" := Null, "N" := Mapping(map["min_period" := Int(20)])])]))
            == Success(map[
              "Z" := Mapping(map["min_period" := Int(17), "max_period" := Int(40)]),
              "N" := Mapping(map["min_period" := Int(20), "max_period" := Int(40)])])
  {
    var d := map["min_period" := Int(17), "max_period" := Int(40)];
    var o := map["min_period" := Int(20)];
    var comps := map["Z" := Null, "N" := Mapping(o)];
    assert Resolve(Mapping(d), Mapping(o)).Some?;
    assert AllResolvable(Mapping(d), comps);
    var merged := map["min_period" := Int(20), "max_period" := Int(40)];
    assert (d + o) - (set k | k in ReservedKeys) == merged;
    var param := Mapping(map["default" := Mapping(d), "components" := Mapping(comps)]);
    var r := Materialize(param).value;
    assert r.Keys == {"Z", "N"};
    assert r["Z"] == Mapping(d) && r["N"] == Mapping(merged);
    assert r == map["Z" := Mapping(d), "N" := Mapping(merged)];
  }
}
