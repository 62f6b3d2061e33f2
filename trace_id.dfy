/**
 * Trace identifiers and the synthetic-id naming rule of `select_windows_stream`
 * (window_asdf.py lines 107-108).  An observed id is split on '.' and must
 * unpack into exactly four fields; the synthetic counterpart is
 * `<network>.<station>.S3.MX<last character of the fourth field>`.
 */
module TraceIds {
  import opened Wrappers

  /** The four dot-separated fields of an id, in the order the script unpacks them. */
  datatype TraceId = TraceId(network: string, station: string, channel: string, component: string)

  /** The exceptions the two lines raise: the unpack's ValueError and `_comp[-1]`'s IndexError. */
  datatype IdError = WrongFieldCount(id: string, count: nat) | EmptyComponent(id: string)

  /** `sep.join(fields)`. */
  function Join(fields: seq<string>, sep: char): string {
    if |fields| == 0 then ""
    else if |fields| == 1 then fields[0]
    else fields[0] + [sep] + Join(fields[1..], sep)
  }

  /** `s.split(sep)`: at least one field, none containing `sep`, and joining them gives `s` back. */
  function Split(s: string, sep: char): (fields: seq<string>)
    ensures |fields| >= 1
    ensures forall i :: 0 <= i < |fields| ==> sep !in fields[i]
    ensures Join(fields, sep) == s
    decreases |s|
  {
    if s == "" then [""]
    else
      var rest := Split(s[1..], sep);
      if s[0] == sep then [""] + rest
      else [[s[0]] + rest[0]] + rest[1..]
  }

  /** Joining fields that do not contain `sep` and splitting again gives the fields back. */
  lemma {:induction false} SplitOfJoin(fields: seq<string>, sep: char)
    requires |fields| >= 1
    requires forall i :: 0 <= i < |fields| ==> sep !in fields[i]
    ensures Split(Join(fields, sep), sep) == fields
    decreases |fields|, |fields[0]|
  {
    var f := fields[0];
    if f == "" {
      if |fields| > 1 {
        var tail := fields[1..];
        SplitOfJoin(tail, sep);
        assert Join(fields, sep) == [sep] + Join(tail, sep);
        assert Join(fields, sep)[1..] == Join(tail, sep);
      }
    } else {
      var shorter := [f[1..]] + fields[1..];
      assert forall i :: 0 <= i < |shorter| ==> sep !in shorter[i] by {
        forall i | 0 <= i < |shorter| ensures sep !in shorter[i] {
          if i > 0 { assert shorter[i] == fields[i]; }
        }
      }
      SplitOfJoin(shorter, sep);
      JoinConsChar(f[0], f[1..], fields[1..], sep);
      assert [f[0]] + f[1..] == f;
      assert fields == [f] + fields[1..];
      var s := Join(fields, sep);
      assert s[0] == f[0] && s[1..] == Join(shorter, sep);
    }
  }

  /** Prepending a character to the first field prepends it to the joined string. */
  lemma JoinConsChar(c: char, first: string, rest: seq<string>, sep: char)
    ensures Join([[c] + first] + rest, sep) == [c] + Join([first] + rest, sep)
  {
  }

  /** `_nw, _sta, _chan, _comp = id.split(".")`. */
  function ParseTraceId(id: string): (r: Result<TraceId, IdError>)
    ensures r.Success? <==> |Split(id, '.')| == 4
    ensures r.Failure? ==> r.error == WrongFieldCount(id, |Split(id, '.')|)
  {
    var fields := Split(id, '.');
    if |fields| == 4 then Success(TraceId(fields[0], fields[1], fields[2], fields[3]))
    else Failure(WrongFieldCount(id, |fields|))
  }

  function Fields(t: TraceId): seq<string> {
    [t.network, t.station, t.channel, t.component]
  }

  /** The id text of a four-field identifier. */
  function Format(t: TraceId): string {
    Join(Fields(t), '.')
  }

  /** No field contains a dot, as is true of every parsed identifier. */
  predicate Dotless(t: TraceId) {
    forall i :: 0 <= i < 4 ==> '.' !in Fields(t)[i]
  }

  /** Parsing and formatting are inverse: a parsed id formats back to the text it came from. */
  lemma ParseThenFormat(id: string)
    requires ParseTraceId(id).Success?
    ensures Format(ParseTraceId(id).value) == id && Dotless(ParseTraceId(id).value)
  {
    assert Fields(ParseTraceId(id).value) == Split(id, '.');
  }

  /** ... and a dotless identifier parses back from its text. */
  lemma {:induction false} FormatThenParse(t: TraceId)
    requires Dotless(t)
    ensures ParseTraceId(Format(t)) == Success(t)
  {
    SplitOfJoin(Fields(t), '.');
  }

  function Last(s: string): char
    requires s != ""
  {
    s[|s| - 1]
  }

  /**
   * Lines 107-108: the observed id's fields and the synthetic id derived from
   * them, or the exception the two lines raise.
   */
  function DeriveSyntheticId(id: string): (r: Result<(TraceId, string), IdError>)
    ensures r.Success? <==> ParseTraceId(id).Success? && ParseTraceId(id).value.component != ""
    ensures r.Success? ==> r.value.0 == ParseTraceId(id).value
    ensures ParseTraceId(id).Failure? ==> r == Failure(ParseTraceId(id).error)
    ensures ParseTraceId(id).Success? && ParseTraceId(id).value.component == "" ==>
      r == Failure(EmptyComponent(id))
  {
    match ParseTraceId(id)
    case Failure(e) => Failure(e)
    case Success(t) =>
      if t.component == "" then Failure(EmptyComponent(id))
      else Success((t, t.network + "." + t.station + ".S3.MX" + [Last(t.component)]))
  }

  /** The four-field join written out. */
  lemma FormatFields(t: TraceId)
    ensures Format(t) == t.network + "." + t.station + "." + t.channel + "." + t.component
  {
    var f := Fields(t);
    assert f[1..][1..][1..] == [t.component];
    assert Join(f[1..][1..], '.') == t.channel + "." + t.component;
    assert Join(f[1..], '.') == t.station + "." + (t.channel + "." + t.component);
  }

  /** Whether lines 107-108 get through without raising. */
  predicate WellFormedId(id: string) {
    DeriveSyntheticId(id).Success?
  }

  /**
   * The synthetic id is itself a four-field id: same network and station as
   * the observed one, channel `S3`, component `MX` followed by the observed
   * id's last character.
   */
  lemma {:induction false} SyntheticIdFields(id: string)
    requires WellFormedId(id)
    ensures var (t, synId) := DeriveSyntheticId(id).value;
      && ParseTraceId(synId) == Success(TraceId(t.network, t.station, "S3", "MX" + [Last(id)]))
      && Last(synId) == Last(id)
  {
    var (t, synId) := DeriveSyntheticId(id).value;
    ParseThenFormat(id);
    var syn := TraceId(t.network, t.station, "S3", "MX" + [Last(t.component)]);
    FormatFields(syn);
    assert Format(syn) == synId;
    assert Dotless(syn) by {
      assert Fields(syn)[0] == Fields(t)[0] && Fields(syn)[1] == Fields(t)[1];
      assert '.' !in "S3" && '.' !in "MX" + [Last(t.component)] by {
        assert Last(t.component) in t.component;
      }
    }
    FormatThenParse(syn);
    LastOfJoin(Fields(t), '.');
  }

  /** A join whose last field is non-empty ends with that field's last character. */
  lemma {:induction false} LastOfJoin(fields: seq<string>, sep: char)
    requires |fields| >= 1 && fields[|fields| - 1] != ""
    ensures Join(fields, sep) != "" && Last(Join(fields, sep)) == Last(fields[|fields| - 1])
  {
    if |fields| > 1 {
      LastOfJoin(fields[1..], sep);
    }
  }

  /** A dotless id with a non-empty component derives the synthetic id from its own fields. */
  lemma {:induction false} DeriveOfFormat(t: TraceId)
    requires Dotless(t) && t.component != ""
    ensures DeriveSyntheticId(Format(t)) == Success((t, t.network + "." + t.station + ".S3.MX" + [Last(t.component)]))
  {
    FormatThenParse(t);
  }

  /**
   * An example: `IU.ANMO.00.LHZ` unpacks into its four fields and
   * pairs with `IU.ANMO.S3.MXZ`.
   */
  // The fields are pinned by a requires rather than written into the
  // ensures: a string literal there lets the solver unfold `Split` on it
  // character by character, which exhausts its resources.
  lemma AnmoExample(t: TraceId)
    requires t == TraceId("IU", "ANMO", "00", "LHZ")
    ensures Format(t) == "IU.ANMO.00.LHZ"
    ensures DeriveSyntheticId(Format(t)) == Success((t, "IU.ANMO.S3.MXZ"))
  {
    assert "IU" + "." + "ANMO" + ".S3.MX" + ['Z'] == "IU.ANMO.S3.MXZ";
    assert "IU" + "." + "ANMO" + "." + "00" + "." + "LHZ" == "IU.ANMO.00.LHZ";
    FormatFields(t);
    assert Dotless(t) by {
      assert Fields(t)[0] == "IU";
    }
    DeriveOfFormat(t);
    assert Last(t.component) == 'Z';
  }

  /** The synthetic id derived from a well-formed observed id. */
  function SyntheticIdOf(id: string): string
    requires WellFormedId(id)
  {
    DeriveSyntheticId(id).value.1
  }

  /** The whole fourth field `_comp` of a well-formed observed id. */
  function ComponentOf(id: string): string
    requires WellFormedId(id)
  {
    DeriveSyntheticId(id).value.0.component
  }
}
