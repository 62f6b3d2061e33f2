/**
 * The dictionary-building part of `write_window_json` in window_asdf.py:
 * stations whose value is None are dropped, and every trace's window list is
 * encoded element by element, in order.  The per-window encoding
 * `get_json_content` is a parameter; turning the dictionary into JSON text is
 * not modelled.
 */
module Serializer {
  import opened Wrappers

  /** What `write_window_json` receives: station to (None or trace id to windows). */
  type ResultTree<W> = map<string, Option<map<string, seq<W>>>>

  /** `get_json_content(window, with_phase=...)`. */
  type Encoder<-W, J> = (W, bool) -> J

  /** The list comprehension of lines 46-47: same length, element i encodes window i. */
  function EncodeWindows<W, J>(windows: seq<W>, encode: Encoder<W, J>, withPhase: bool): (r: seq<J>)
    ensures |r| == |windows|
    ensures forall i :: 0 <= i < |windows| ==> r[i] == encode(windows[i], withPhase)
  {
    if windows == [] then []
    else [encode(windows[0], withPhase)] + EncodeWindows(windows[1..], encode, withPhase)
  }

  /** One station's dictionary, lines 44-48: the same trace ids, each list encoded element by element. */
  function EncodeStation<W, J>(staWin: map<string, seq<W>>, encode: Encoder<W, J>, withPhase: bool)
    : (r: map<string, seq<J>>)
    ensures r.Keys == staWin.Keys
    ensures forall t :: t in r ==>
      |r[t]| == |staWin[t]| &&
      forall i :: 0 <= i < |r[t]| ==> r[t][i] == encode(staWin[t][i], withPhase)
  {
    map t | t in staWin :: EncodeWindows(staWin[t], encode, withPhase)
  }

  /**
   * The dictionary `write_window_json` hands to `json.dumps`: exactly the
   * stations whose value is not None, each with the same trace ids, each
   * trace's list of the same length and order with every window encoded.
   */
  function Flatten<W, J>(results: ResultTree<W>, encode: Encoder<W, J>, withPhase: bool)
    : (doc: map<string, map<string, seq<J>>>)
    ensures forall s :: s in doc <==> s in results && results[s].Some?
    ensures forall s :: s in doc ==> doc[s].Keys == results[s].value.Keys
    ensures forall s, t :: s in doc && t in doc[s] ==>
      && |doc[s][t]| == |results[s].value[t]|
      && forall i :: 0 <= i < |doc[s][t]| ==> doc[s][t][i] == encode(results[s].value[t][i], withPhase)
  {
    map s | s in results && results[s].Some? :: EncodeStation(results[s].value, encode, withPhase)
  }

  /** Lines 44-48 for one station: encode each trace's windows under its id. */
  method EncodeTraces<W, J>(staWin: map<string, seq<W>>, encode: Encoder<W, J>, withPhase: bool)
    returns (windowComp: map<string, seq<J>>)
    ensures windowComp == EncodeStation(staWin, encode, withPhase)
  {
    windowComp := map[];
    var pending := staWin.Keys;
    while pending != {}
      invariant pending <= staWin.Keys
      invariant windowComp == map t | t in staWin && t !in pending :: EncodeWindows(staWin[t], encode, withPhase)
      decreases pending
    {
      var traceId :| traceId in pending;
      pending := pending - {traceId};
      var window := EncodeWindows(staWin[traceId], encode, withPhase);
      windowComp := windowComp[traceId := window];
    }
  }

  /** The station loop of `write_window_json` (lines 39-49). */
  method WriteWindowJson<W, J>(results: ResultTree<W>, encode: Encoder<W, J>, withPhase: bool)
    returns (windowAll: map<string, map<string, seq<J>>>)
    ensures windowAll == Flatten(results, encode, withPhase)
  {
    windowAll := map[];
    var todo := results.Keys;
    while todo != {}
      invariant todo <= results.Keys
      invariant windowAll ==
        map s | s in results && s !in todo && results[s].Some? :: EncodeStation(results[s].value, encode, withPhase)
      decreases todo
    {
      var station :| station in todo;
      todo := todo - {station};
      var staWin := results[station];
      if staWin.None? {
        continue;
      }
      var windowComp := EncodeTraces(staWin.value, encode, withPhase);
      windowAll := windowAll[station := windowComp];
    }
  }

  /** The result tree of a run in which every station has a value. */
  function AllPresent<W>(windows: map<string, map<string, seq<W>>>): ResultTree<W> {
    map s | s in windows :: Some(windows[s])
  }

  /**
   * Writing the stations' windows drops none of them: every station and
   * every trace id of the selection reaches the document, each list keeping
   * its length.
   */
  lemma AllStationsWritten<W, J>(windows: map<string, map<string, seq<W>>>, encode: Encoder<W, J>, withPhase: bool)
    ensures var doc := Flatten(AllPresent(windows), encode, withPhase);
      && doc.Keys == windows.Keys
      && (forall s :: s in doc ==> doc[s].Keys == windows[s].Keys)
      && (forall s, t :: s in doc && t in doc[s] ==> |doc[s][t]| == |windows[s][t]|)
  {
  }
}
