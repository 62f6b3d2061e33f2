/**
 * The dataset pairing loops: `select_windows_stream` and `select_windows_asdf`
 * in window_asdf.py.  The window selector of `select_windows_trace` is a
 * parameter: it takes the observed trace, the synthetic trace and the
 * component's option record, and returns that pair's windows.
 */
module Selection {
  import opened Wrappers
  import opened Config
  import opened TraceIds

  /** A seismogram: its dot-separated id and its samples. */
  datatype Trace = Trace(id: string, samples: seq<real>)

  /** `select_windows_trace`: observed trace, synthetic trace, option record to windows. */
  type Selector<W> = (Trace, Trace, Value) -> seq<W>

  /** A dataset's waveforms: station name to tag to stream of traces. */
  type Waveforms = map<string, map<string, seq<Trace>>>

  predicate HasId(stream: seq<Trace>, id: string) {
    exists k :: 0 <= k < |stream| && stream[k].id == id
  }

  /** `t` is the earliest trace of `stream` carrying `id`. */
  predicate IsFirstWithId(stream: seq<Trace>, id: string, t: Trace) {
    exists j :: 0 <= j < |stream| && stream[j] == t && t.id == id &&
      forall k :: 0 <= k < j ==> stream[k].id != id
  }

  /** `stream.select(id=id)`: the traces carrying `id`, in stream order. */
  function SelectById(stream: seq<Trace>, id: string): (r: seq<Trace>)
    ensures forall t :: t in r <==> t in stream && t.id == id
    ensures r != [] ==> IsFirstWithId(stream, id, r[0])
  {
    if stream == [] then []
    else
      var rest := SelectById(stream[1..], id);
      assert forall k :: 0 < k < |stream| ==> stream[k] == stream[1..][k - 1];
      assert stream == [stream[0]] + stream[1..];
      if stream[0].id == id then
        [stream[0]] + rest
      else
        assert rest != [] ==> IsFirstWithId(stream, id, rest[0]) by {
          if rest != [] {
            var j :| 0 <= j < |stream[1..]| && stream[1..][j] == rest[0] && rest[0].id == id &&
              forall k :: 0 <= k < j ==> stream[1..][k].id != id;
            assert stream[j + 1] == rest[0];
          }
        }
        rest
  }

  /** Index `j` holds the last trace of `stream` carrying `id`. */
  predicate IsLastWithId(stream: seq<Trace>, id: string, j: int) {
    0 <= j < |stream| && stream[j].id == id && forall k :: j < k < |stream| ==> stream[k].id != id
  }

  /** `stream.select(id=id)[0]`: the earliest trace carrying `id`. */
  function FirstWithId(stream: seq<Trace>, id: string): (t: Trace)
    requires HasId(stream, id)
    ensures IsFirstWithId(stream, id, t)
  {
    var k :| 0 <= k < |stream| && stream[k].id == id;
    assert stream[k] in SelectById(stream, id);
    SelectById(stream, id)[0]
  }

  /**
   * Whether an observed trace with this id gets windows: its synthetic
   * counterpart exists and its whole fourth field is a key of `params`.
   */
  predicate Selectable(id: string, syn: seq<Trace>, params: map<string, Value>) {
    WellFormedId(id) && HasId(syn, SyntheticIdOf(id)) && ComponentOf(id) in params
  }

  /**
   * Lines 107-120 for one observed id: the exception, a skip (None), or the
   * first synthetic trace with the derived id and the component's options.
   */
  function PairFor(id: string, syn: seq<Trace>, params: map<string, Value>)
    : (r: Result<Option<(Trace, Value)>, IdError>)
    ensures r.Success? <==> WellFormedId(id)
    ensures r.Failure? ==> r.error == DeriveSyntheticId(id).error
    ensures r.Success? ==> (r.value.Some? <==> Selectable(id, syn, params))
    ensures r.Success? && r.value.Some? ==>
      && r.value.value.0 == FirstWithId(syn, SyntheticIdOf(id))
      && r.value.value.1 == params[ComponentOf(id)]
  {
    match DeriveSyntheticId(id)
    case Failure(e) => Failure(e)
    case Success((t, synId)) =>
      var synTr := SelectById(syn, synId);
      if |synTr| == 0 then Success(None)
      else if t.component !in params then Success(None)
      else Success(Some((synTr[0], params[t.component])))
  }

  /** What `select_windows_stream` returns or raises, as a fold over the observed traces. */
  function SelectStream<W>(obs: seq<Trace>, syn: seq<Trace>, params: map<string, Value>, sel: Selector<W>)
    : Result<map<string, seq<W>>, IdError>
    decreases |obs|
  {
    if obs == [] then Success(map[])
    else
      var tr := obs[|obs| - 1];
      match SelectStream(obs[..|obs| - 1], syn, params, sel)
      case Failure(e) => Failure(e)
      case Success(windows) =>
        match PairFor(tr.id, syn, params)
        case Failure(e) => Failure(e)
        case Success(None) => Success(windows)
        case Success(Some((synTr, p))) => Success(windows[tr.id := sel(tr, synTr, p)])
  }

  /** Once a prefix of the observed stream raises, the whole loop raises the same. */
  lemma {:induction false} StreamFailureIsFinal<W>(
    obs: seq<Trace>, n: nat, syn: seq<Trace>, params: map<string, Value>, sel: Selector<W>)
    requires n <= |obs| && SelectStream(obs[..n], syn, params, sel).Failure?
    ensures SelectStream(obs, syn, params, sel) == SelectStream(obs[..n], syn, params, sel)
    decreases |obs|
  {
    if n < |obs| {
      var prefix := obs[..|obs| - 1];
      assert prefix[..n] == obs[..n];
      StreamFailureIsFinal(prefix, n, syn, params, sel);
    } else {
      assert obs[..n] == obs;
    }
  }

  /** The loop of `select_windows_stream`, one observed trace at a time. */
  method SelectWindowsStream<W>(obsStream: seq<Trace>, synStream: seq<Trace>, params: map<string, Value>, sel: Selector<W>)
    returns (r: Result<map<string, seq<W>>, IdError>)
    ensures r == SelectStream(obsStream, synStream, params, sel)
  {
    var windows: map<string, seq<W>> := map[];
    for i := 0 to |obsStream|
      invariant SelectStream(obsStream[..i], synStream, params, sel) == Success(windows)
    {
      var obsTr := obsStream[i];
      assert obsStream[..i + 1][..i] == obsStream[..i];
      var derived := DeriveSyntheticId(obsTr.id);
      if derived.Failure? {
        StreamFailureIsFinal(obsStream, i + 1, synStream, params, sel);
        return Failure(derived.error);
      }
      var (obsId, synTraceId) := derived.value;
      var synTr := SelectById(synStream, synTraceId);
      if |synTr| == 0 {
        continue;
      }
      if obsId.component !in params {
        continue;
      }
      var param := params[obsId.component];
      windows := windows[obsTr.id := sel(obsTr, synTr[0], param)];
    }
    assert obsStream[..|obsStream|] == obsStream;
    return Success(windows);
  }

  /**
   * `select_windows_stream` raises exactly when some observed id is malformed,
   * and then it raises the error of the first one.
   */
  lemma {:induction false} StreamOutcome<W>(obs: seq<Trace>, syn: seq<Trace>, params: map<string, Value>, sel: Selector<W>)
    ensures SelectStream(obs, syn, params, sel).Success? <==>
      forall i :: 0 <= i < |obs| ==> WellFormedId(obs[i].id)
    ensures SelectStream(obs, syn, params, sel).Failure? ==>
      exists i :: 0 <= i < |obs| && !WellFormedId(obs[i].id) &&
        (forall k :: 0 <= k < i ==> WellFormedId(obs[k].id)) &&
        SelectStream(obs, syn, params, sel).error == DeriveSyntheticId(obs[i].id).error
    decreases |obs|
  {
    if obs != [] {
      var n := |obs| - 1;
      var prefix := obs[..n];
      StreamOutcome(prefix, syn, params, sel);
      assert forall k :: 0 <= k < n ==> prefix[k] == obs[k];
      if SelectStream(prefix, syn, params, sel).Failure? {
        var i :| 0 <= i < n && !WellFormedId(prefix[i].id) &&
          (forall k :: 0 <= k < i ==> WellFormedId(prefix[k].id)) &&
          SelectStream(prefix, syn, params, sel).error == DeriveSyntheticId(prefix[i].id).error;
        assert obs[i] == prefix[i];
      } else if !WellFormedId(obs[n].id) {
        assert SelectStream(obs, syn, params, sel).error == DeriveSyntheticId(obs[n].id).error;
      }
    }
  }

  /**
   * An observed id is a key of the result exactly when some observed trace
   * carries it, a synthetic trace carries the derived id, and its whole
   * fourth field is a key of `params`; skipped traces do not stop the loop.
   */
  lemma {:induction false} StreamKeys<W>(
    obs: seq<Trace>, syn: seq<Trace>, params: map<string, Value>, sel: Selector<W>, id: string)
    requires SelectStream(obs, syn, params, sel).Success?
    ensures id in SelectStream(obs, syn, params, sel).value <==>
      HasId(obs, id) && Selectable(id, syn, params)
    decreases |obs|
  {
    if obs != [] {
      var n := |obs| - 1;
      var prefix := obs[..n];
      StreamStep(obs, syn, params, sel);
      StreamKeys(prefix, syn, params, sel, id);
      HasIdSnoc(obs, id);
      if obs[n].id == id {
        assert PairFor(id, syn, params).value.Some? <==> Selectable(id, syn, params);
      }
    }
  }

  /** A stream carries an id exactly when its prefix or its last trace does. */
  lemma HasIdSnoc(stream: seq<Trace>, id: string)
    requires stream != []
    ensures HasId(stream, id) <==> HasId(stream[..|stream| - 1], id) || stream[|stream| - 1].id == id
  {
  }

  /**
   * The windows recorded for an observed id are the selector's result on the
   * LAST observed trace carrying that id (later traces overwrite earlier
   * ones), the FIRST synthetic trace carrying the derived id, and the
   * options of the id's whole fourth field.
   */
  lemma {:induction false} StreamValue<W>(
    obs: seq<Trace>, syn: seq<Trace>, params: map<string, Value>, sel: Selector<W>, id: string)
    requires SelectStream(obs, syn, params, sel).Success?
    requires id in SelectStream(obs, syn, params, sel).value
    ensures Selectable(id, syn, params) &&
      exists j :: IsLastWithId(obs, id, j) &&
        SelectStream(obs, syn, params, sel).value[id] ==
          sel(obs[j], FirstWithId(syn, SyntheticIdOf(id)), params[ComponentOf(id)])
    decreases |obs|
  {
    var n := |obs| - 1;
    var prefix := obs[..n];
    var tr := obs[n];
    StreamStep(obs, syn, params, sel);
    var windows := SelectStream(prefix, syn, params, sel).value;
    var pair := PairFor(tr.id, syn, params).value;
    var result := SelectStream(obs, syn, params, sel).value;
    if pair.Some? && tr.id == id {
      assert IsLastWithId(obs, id, n);
      assert result[id] == sel(obs[n], FirstWithId(syn, SyntheticIdOf(id)), params[ComponentOf(id)]);
    } else {
      assert id in windows && result[id] == windows[id];
      StreamValue(prefix, syn, params, sel, id);
      var j :| IsLastWithId(prefix, id, j) &&
        windows[id] == sel(prefix[j], FirstWithId(syn, SyntheticIdOf(id)), params[ComponentOf(id)]);
      assert tr.id != id;
      LastWithIdSnoc(obs, id, j);
      assert result[id] == sel(obs[j], FirstWithId(syn, SyntheticIdOf(id)), params[ComponentOf(id)]);
    }
  }

  /** The last carrier of `id` in a prefix stays the last when the added trace does not carry it. */
  lemma LastWithIdSnoc(stream: seq<Trace>, id: string, j: int)
    requires stream != [] && stream[|stream| - 1].id != id
    requires IsLastWithId(stream[..|stream| - 1], id, j)
    ensures IsLastWithId(stream, id, j)
  {
  }

  /** One iteration of the loop, for a stream whose loop does not raise. */
  lemma StreamStep<W>(obs: seq<Trace>, syn: seq<Trace>, params: map<string, Value>, sel: Selector<W>)
    requires obs != [] && SelectStream(obs, syn, params, sel).Success?
    ensures var n := |obs| - 1;
      && SelectStream(obs[..n], syn, params, sel).Success?
      && PairFor(obs[n].id, syn, params).Success?
      && SelectStream(obs, syn, params, sel).value ==
           var windows := SelectStream(obs[..n], syn, params, sel).value;
           match PairFor(obs[n].id, syn, params).value
           case None => windows
           case Some((synTr, p)) => windows[obs[n].id := sel(obs[n], synTr, p)]
  {
  }

  /**
   * The options are looked up under the whole fourth field, not its last
   * character: with options keyed `Z` only, the trace `IU.ANMO.00.LHZ` is
   * skipped even when its synthetic counterpart is present.
   */
  // The observed trace is pinned by a requires, as in `AnmoExample`, to keep
  // a string literal away from `Split`.
  lemma WholeFieldLookup<W>(t: TraceId, tr: Trace, syn: seq<Trace>, params: map<string, Value>, sel: Selector<W>)
    requires t == TraceId("IU", "ANMO", "00", "LHZ") && tr.id == Format(t)
    requires "Z" in params && "LHZ" !in params
    ensures SelectStream([tr], syn, params, sel) == Success(map[])
  {
    AnmoExample(t);
    assert [tr][..0] == [];
    assert PairFor(tr.id, syn, params) == Success(None);
  }

  /**
   * Whether a listed observed station is processed: the synthetic dataset has
   * it, the observed station has a group under `obsTag` and the synthetic
   * station has one under `synTag`.
   */
  predicate Paired(station: string, obs: Waveforms, obsTag: string, syn: Waveforms, synTag: string)
    requires station in obs
  {
    station in syn && obsTag in obs[station] && synTag in syn[station]
  }

  /** `stations` is what `obs_ds.waveforms.list()` reports, so each names an observed station. */
  predicate Listed(stations: seq<string>, obs: Waveforms) {
    forall s :: s in stations ==> s in obs
  }

  /** Whether the stream loop raises for a listed station that is processed. */
  predicate StreamRaises<W>(
    station: string, obs: Waveforms, obsTag: string, syn: Waveforms, synTag: string,
    params: map<string, Value>, sel: Selector<W>)
    requires station in obs
  {
    Paired(station, obs, obsTag, syn, synTag) &&
    SelectStream(obs[station][obsTag], syn[station][synTag], params, sel).Failure?
  }

  /** What `select_windows_asdf` returns or raises, as a fold over the listed stations. */
  function SelectAsdf<W>(
    stations: seq<string>, obs: Waveforms, obsTag: string, syn: Waveforms, synTag: string,
    params: map<string, Value>, sel: Selector<W>)
    : Result<map<string, map<string, seq<W>>>, IdError>
    requires Listed(stations, obs)
    decreases |stations|
  {
    if stations == [] then Success(map[])
    else
      var station := stations[|stations| - 1];
      match SelectAsdf(stations[..|stations| - 1], obs, obsTag, syn, synTag, params, sel)
      case Failure(e) => Failure(e)
      case Success(windows) =>
        if !Paired(station, obs, obsTag, syn, synTag) then Success(windows)
        else
          match SelectStream(obs[station][obsTag], syn[station][synTag], params, sel)
          case Failure(e) => Failure(e)
          case Success(w) => Success(windows[station := w])
  }

  /** Once the stations listed so far raise, the whole loop raises the same. */
  lemma {:induction false} AsdfFailureIsFinal<W>(
    stations: seq<string>, n: nat, obs: Waveforms, obsTag: string, syn: Waveforms, synTag: string,
    params: map<string, Value>, sel: Selector<W>)
    requires Listed(stations, obs) && n <= |stations|
    requires SelectAsdf(stations[..n], obs, obsTag, syn, synTag, params, sel).Failure?
    ensures SelectAsdf(stations, obs, obsTag, syn, synTag, params, sel) ==
      SelectAsdf(stations[..n], obs, obsTag, syn, synTag, params, sel)
    decreases |stations|
  {
    if n < |stations| {
      var prefix := stations[..|stations| - 1];
      assert prefix[..n] == stations[..n];
      AsdfFailureIsFinal(prefix, n, obs, obsTag, syn, synTag, params, sel);
    } else {
      assert stations[..n] == stations;
    }
  }

  /** The loop of `select_windows_asdf`, one listed station at a time. */
  method SelectWindowsAsdf<W>(
    stations: seq<string>, obs: Waveforms, obsTag: string, syn: Waveforms, synTag: string,
    params: map<string, Value>, sel: Selector<W>)
    returns (r: Result<map<string, map<string, seq<W>>>, IdError>)
    requires Listed(stations, obs)
    ensures r == SelectAsdf(stations, obs, obsTag, syn, synTag, params, sel)
  {
    var windows: map<string, map<string, seq<W>>> := map[];
    for i := 0 to |stations|
      invariant SelectAsdf(stations[..i], obs, obsTag, syn, synTag, params, sel) == Success(windows)
    {
      var stationName := stations[i];
      assert stations[..i + 1][..i] == stations[..i];
      if stationName !in syn {
        continue;
      }
      if obsTag !in obs[stationName] {
        continue;
      }
      var obsStream := obs[stationName][obsTag];
      if synTag !in syn[stationName] {
        continue;
      }
      var synStream := syn[stationName][synTag];
      var w := SelectWindowsStream(obsStream, synStream, params, sel);
      if w.Failure? {
        AsdfFailureIsFinal(stations, i + 1, obs, obsTag, syn, synTag, params, sel);
        return Failure(w.error);
      }
      windows := windows[stationName := w.value];
    }
    assert stations[..|stations|] == stations;
    return Success(windows);
  }

  /** One iteration of the station loop, for a run that does not raise. */
  lemma AsdfStep<W>(
    stations: seq<string>, obs: Waveforms, obsTag: string, syn: Waveforms, synTag: string,
    params: map<string, Value>, sel: Selector<W>)
    requires Listed(stations, obs) && stations != []
    requires SelectAsdf(stations, obs, obsTag, syn, synTag, params, sel).Success?
    ensures var n := |stations| - 1;
      && Listed(stations[..n], obs)
      && SelectAsdf(stations[..n], obs, obsTag, syn, synTag, params, sel).Success?
      && SelectAsdf(stations, obs, obsTag, syn, synTag, params, sel).value ==
           var windows := SelectAsdf(stations[..n], obs, obsTag, syn, synTag, params, sel).value;
           var s := stations[n];
           if Paired(s, obs, obsTag, syn, synTag) then
             windows[s := SelectStream(obs[s][obsTag], syn[s][synTag], params, sel).value]
           else windows
  {
  }

  /**
   * `select_windows_asdf` raises exactly when the stream loop raises for some
   * processed station, and then it raises the error of the first such station.
   */
  lemma {:induction false} AsdfOutcome<W>(
    stations: seq<string>, obs: Waveforms, obsTag: string, syn: Waveforms, synTag: string,
    params: map<string, Value>, sel: Selector<W>)
    requires Listed(stations, obs)
    ensures SelectAsdf(stations, obs, obsTag, syn, synTag, params, sel).Success? <==>
      forall s :: s in stations && Paired(s, obs, obsTag, syn, synTag) ==>
        SelectStream(obs[s][obsTag], syn[s][synTag], params, sel).Success?
    ensures SelectAsdf(stations, obs, obsTag, syn, synTag, params, sel).Failure? ==>
      exists i :: 0 <= i < |stations| && StreamRaises(stations[i], obs, obsTag, syn, synTag, params, sel) &&
        (forall k :: 0 <= k < i ==> !StreamRaises(stations[k], obs, obsTag, syn, synTag, params, sel)) &&
        SelectAsdf(stations, obs, obsTag, syn, synTag, params, sel).error ==
          SelectStream(obs[stations[i]][obsTag], syn[stations[i]][synTag], params, sel).error
    decreases |stations|
  {
    if stations != [] {
      var n := |stations| - 1;
      var prefix := stations[..n];
      assert Listed(prefix, obs);
      AsdfOutcome(prefix, obs, obsTag, syn, synTag, params, sel);
      assert forall s :: s in stations <==> s in prefix || s == stations[n];
      assert forall k :: 0 <= k < n ==> prefix[k] == stations[k];
      if SelectAsdf(prefix, obs, obsTag, syn, synTag, params, sel).Failure? {
        var i :| 0 <= i < n && StreamRaises(prefix[i], obs, obsTag, syn, synTag, params, sel) &&
          (forall k :: 0 <= k < i ==> !StreamRaises(prefix[k], obs, obsTag, syn, synTag, params, sel)) &&
          SelectAsdf(prefix, obs, obsTag, syn, synTag, params, sel).error ==
            SelectStream(obs[prefix[i]][obsTag], syn[prefix[i]][synTag], params, sel).error;
        assert stations[i] == prefix[i];
      } else if StreamRaises(stations[n], obs, obsTag, syn, synTag, params, sel) {
        assert forall k :: 0 <= k < n ==> !StreamRaises(prefix[k], obs, obsTag, syn, synTag, params, sel);
      }
    }
  }

  /**
   * A station is a key of the result exactly when it is listed and paired
   * (a station the synthetic dataset lacks, or one missing either tag, gets
   * no entry at all), and its value is the stream loop's result on its two
   * tagged streams -- never None.
   */
  lemma {:induction false} AsdfEntries<W>(
    stations: seq<string>, obs: Waveforms, obsTag: string, syn: Waveforms, synTag: string,
    params: map<string, Value>, sel: Selector<W>, s: string)
    requires Listed(stations, obs)
    requires SelectAsdf(stations, obs, obsTag, syn, synTag, params, sel).Success?
    ensures s in SelectAsdf(stations, obs, obsTag, syn, synTag, params, sel).value <==>
      s in stations && Paired(s, obs, obsTag, syn, synTag)
    ensures s in SelectAsdf(stations, obs, obsTag, syn, synTag, params, sel).value ==>
      SelectStream(obs[s][obsTag], syn[s][synTag], params, sel) ==
        Success(SelectAsdf(stations, obs, obsTag, syn, synTag, params, sel).value[s])
    decreases |stations|
  {
    if stations != [] {
      var n := |stations| - 1;
      var prefix := stations[..n];
      AsdfStep(stations, obs, obsTag, syn, synTag, params, sel);
      AsdfEntries(prefix, obs, obsTag, syn, synTag, params, sel, s);
      assert s in stations <==> s in prefix || s == stations[n];
      if s == stations[n] && Paired(s, obs, obsTag, syn, synTag) {
        assert SelectStream(obs[s][obsTag], syn[s][synTag], params, sel).Success? by {
          AsdfOutcome(stations, obs, obsTag, syn, synTag, params, sel);
        }
      }
    }
  }
}
