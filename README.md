# Window selection over paired ASDF datasets: a Dafny model

This project models the core of `window_asdf.py`, the script that drives
seismic window selection for one earthquake. The script pairs an observed and a
synthetic dataset station by station and trace by trace. It hands each pair to
an external window selector, collects the windows per station and per trace,
and serialises them. The model has four parts, one Dafny module each:

- `Config` models `parse_param_yaml`. A parameter template holds a `default`
  option record and a `components` mapping. Each component gets a copy of
  `default` with its override written over it key by key, and then the two
  reserved options `instrument_merge_flag` and `write_window_with_phase` are
  removed. YAML values are the `Value` datatype (see "## Left out" for the
  YAML values it cannot hold).
- `TraceIds` models `str.split(".")` and the four-field unpack, and derives
  the synthetic trace id `<network>.<station>.S3.MX<last char of field 4>`.
- `Selection` models `select_windows_stream` and `select_windows_asdf`, the
  nested loops that decide which stations and traces get windows. The window
  selector (`select_windows_trace`) is a function-typed parameter.
- `Serializer` models the dictionary that `write_window_json` builds before
  calling `json.dumps`. The per-window encoding `get_json_content` is a
  function-typed parameter.
- `Wrappers` holds `Option` and `Result`. The exceptions the script lets
  propagate (KeyError, TypeError, AttributeError, ValueError, IndexError)
  become `Failure` values.

Each loop of the script is a method: `ParseParamYaml`, `SelectWindowsStream`,
`SelectWindowsAsdf` and `WriteWindowJson`. Each is proved equal to a
specification function (`Materialize`, `SelectStream`, `SelectAsdf`,
`Flatten`), and the lemmas state what those functions promise.

Two behaviours of the code are worth knowing:

- The reserved options are removed only for components that have an
  override. The removal at lines 31-33 comes after the `continue` at lines
  25-26. So a component without an override keeps `default` exactly,
  reserved keys included (`NullOverrideKeepsDefault`,
  `ReservedKeySurvivesNullOverride`).
- Options are looked up under the whole fourth field `_comp`, e.g. `LHZ`
  (line 116). The synthetic id uses only its last character (line 108). See
  `WholeFieldLookup`.

## Model

| member | source | states |
|---|---|---|
| `Config.Resolve` | window_asdf.py:24-33 | A null override yields `default` unchanged. A mapping override over a mapping default yields every non-reserved key of either. An override key takes the override's value and any other key keeps the default's. No reserved name remains. Any other shape fails, as Python raises. |
| `Config.Materialize` | window_asdf.py:17-35 | A missing `default` fails with KeyError on `default`. A missing `components` fails with KeyError on `components`. Every other failure is the shape error `NotAMapping`. It succeeds exactly when the template is a mapping with both keys, `components` is a mapping, and every override is null or is a mapping over a mapping `default`. On success the key set is exactly the key set of `components`, and each entry is that component's `Resolve`. |
| `Config.ApplyOverride` | window_asdf.py:28-33 | The key-by-key override loop and the two pops produce exactly the record `Resolve` specifies. |
| `Config.ParseParamYaml` | window_asdf.py:17-35 | The component loop returns, or fails, exactly as `Materialize` specifies. |
| `Config.OverriddenComponent` | window_asdf.py:28-33 | For a component with an override: a non-reserved override key maps to the override's value, and any other non-reserved key of `default` maps to the default's value. Nothing else is present, and the reserved names are absent even when the override sets them. |
| `Config.NullOverrideKeepsDefault` | window_asdf.py:24-26 | A component whose override is null gets `default` exactly, reserved keys included, because the `continue` skips the pops. |
| `Config.ComponentsIndependent` | window_asdf.py:24 | A component's record depends only on `default` and its own override. The deep copy keeps other components' overrides out. |
| `Config.ReservedKeySurvivesNullOverride` | window_asdf.py:24-33 | Example: with `instrument_merge_flag` in `default`, component `Z` (null override) keeps it and component `N` (with an override) loses it. |
| `Config.PeriodsExample` | window_asdf.py:17-35 | Example: default periods 17/40, `Z` null, `N` sets `min_period` 20. The result is `Z` 17/40 and `N` 20/40. |
| `TraceIds.Split` | window_asdf.py:107 | `split(".")` gives at least one field. No field contains a dot. Joining the fields with dots gives the id back. |
| `TraceIds.SplitOfJoin` | window_asdf.py:107 | Dot-free fields joined with dots split back into the same fields. |
| `TraceIds.ParseTraceId` | window_asdf.py:107 | The unpack succeeds exactly when the split yields four fields. Otherwise it fails with the field count. |
| `TraceIds.ParseThenFormat` | window_asdf.py:107 | A parsed id formats back to its own text, and its fields are dot-free. |
| `TraceIds.FormatThenParse` | window_asdf.py:107 | Four dot-free fields, formatted, parse back to themselves. |
| `TraceIds.DeriveSyntheticId` | window_asdf.py:107-108 | Derivation succeeds exactly when the id has four fields and a non-empty fourth field. It fails with the unpack error or the empty-component error otherwise, and on success returns the parsed observed fields. |
| `TraceIds.SyntheticIdFields` | window_asdf.py:107-108 | The synthetic id parses as observed network and station, channel `S3`, component `MX` plus the observed id's last character. Its last character is the observed id's last character. |
| `TraceIds.DeriveOfFormat` | window_asdf.py:107-108 | For dot-free fields with a non-empty fourth field, the synthetic id is `network.station.S3.MX` plus the fourth field's last character. |
| `TraceIds.AnmoExample` | window_asdf.py:107-108 | Example: `IU.ANMO.00.LHZ` unpacks into `IU`, `ANMO`, `00`, `LHZ` and derives `IU.ANMO.S3.MXZ`. |
| `Selection.SelectById` | window_asdf.py:109 | `stream.select(id=...)` keeps exactly the traces with that id, so it is empty exactly when no trace has the id. Its head is the earliest such trace. |
| `Selection.FirstWithId` | window_asdf.py:121 | `syn_tr[0]` is the earliest synthetic trace with the derived id. |
| `Selection.PairFor` | window_asdf.py:107-120 | For one observed id: it fails exactly when the id is malformed. It pairs exactly when a synthetic trace has the derived id and the whole fourth field is an options key. It then pairs with the first such trace and that key's options. |
| `Selection.SelectStream` | window_asdf.py:100-124 | What `select_windows_stream` returns or raises, as a fold over the observed stream. It has no contract of its own. `StreamKeys`, `StreamValue` and `StreamOutcome` state what it promises. |
| `Selection.SelectWindowsStream` | window_asdf.py:100-124 | The trace loop returns, or fails, exactly as the fold `SelectStream` over the observed stream specifies. |
| `Selection.StreamFailureIsFinal` | window_asdf.py:107 | Once a prefix of the observed stream raises, the whole loop raises the same error. |
| `Selection.StreamOutcome` | window_asdf.py:105-108 | The stream loop raises exactly when some observed id is malformed, and then it raises the error of the first malformed one. |
| `Selection.StreamKeys` | window_asdf.py:105-122 | An observed id is a result key exactly when some observed trace has it, a synthetic trace has the derived id, and its whole fourth field is an options key. Skipped traces do not stop the loop. |
| `Selection.StreamValue` | window_asdf.py:109-122 | An id's windows are the selector applied to the last observed trace with that id, the first synthetic trace with the derived id, and the fourth field's options. A later observed trace overwrites an earlier one. |
| `Selection.StreamStep` | window_asdf.py:105-122 | One iteration: the loop either skips the trace or records the selector's result under its id. |
| `Selection.WholeFieldLookup` | window_asdf.py:116 | With options keyed `Z` but not `LHZ`, the trace `IU.ANMO.00.LHZ` is skipped. |
| `Selection.SelectAsdf` | window_asdf.py:66-97 | What `select_windows_asdf` returns or raises, as a fold over the listed stations. It has no contract of its own. `AsdfEntries` and `AsdfOutcome` state what it promises. |
| `Selection.SelectWindowsAsdf` | window_asdf.py:66-97 | The station loop returns, or fails, exactly as the fold `SelectAsdf` over the listed stations specifies. |
| `Selection.AsdfFailureIsFinal` | window_asdf.py:94 | Once the stations processed so far raise, the whole loop raises the same error. |
| `Selection.AsdfStep` | window_asdf.py:75-95 | One iteration: an unpaired station is skipped, and a paired one is mapped to its stream loop's result. |
| `Selection.AsdfOutcome` | window_asdf.py:94 | The station loop raises exactly when the stream loop raises for some listed, paired station. It then raises the error of the first such station in list order. |
| `Selection.AsdfEntries` | window_asdf.py:75-95 | A station is a key exactly when it is listed, the synthetic dataset has it, and both stations have their tag. A station that fails any test gets no entry at all. Its value is its stream loop's result, never None. |
| `Serializer.EncodeWindows` | window_asdf.py:46-47 | The encoded list has the input's length, and element i encodes window i with the phase flag. |
| `Serializer.EncodeStation` | window_asdf.py:44-48 | One station's dictionary has the same trace ids. Each list keeps its length, and element i encodes window i with the phase flag. |
| `Serializer.Flatten` | window_asdf.py:38-49 | Document stations are exactly the input stations whose value is not None. Trace ids are unchanged. Every list keeps its length and order, element by element encoded. |
| `Serializer.EncodeTraces` | window_asdf.py:44-48 | The trace loop for one station builds exactly the encoded station map. |
| `Serializer.WriteWindowJson` | window_asdf.py:38-49 | The station loop builds exactly the `Flatten` document. |
| `Serializer.AllStationsWritten` | window_asdf.py:40-49 | When every station has a value, as `select_windows_asdf` guarantees, every station and trace id reaches the document, and each list keeps its length. |

## Left out

- `utils.py` (`safe_mkdir`, `load_json`, `write_json`, `load_yaml`) and `load_window_param_file`: file-system I/O and thin library wrappers. `ParseParamYaml` takes the value `load_yaml` would return.
- `main`: hard-coded paths, opening the ASDF files, printing.
- The inside of `select_windows_trace`, i.e. `pyflex.Config` and `WindowSelector`: foreign floating-point signal analysis. It is the parameter `sel`, a total function. Exceptions it raises, such as an unrecognised option, are not modelled.
- The event record (`obs_ds.events[0]`) and the station's `StationXML`: opaque metadata passed through to the selector. `sel` receives neither, and a failing lookup of either is not modelled.
- Station traversal order comes from `obs_ds.waveforms.list()`, which the model receives as the `stations` sequence. The requirement `Listed` says each listed station is in the observed dataset, which holds because the list comes from that dataset.
- `SelectById`: ObsPy's `Stream.select(id=...)` compares `fnmatch(trace.id.upper(), id.upper())`. The model compares ids exactly. The derived id copies network, station and the last channel character from the observed id. The model finds fewer matches than ObsPy when those parts contain `*` or `?`, or when a synthetic trace id differs from the derived id only in letter case. It can find more when they contain `[`, because `fnmatch` reads `[...]` as a character class. Either way the first match can differ.
- The JSON text (lines 51-57): `json.dumps` with `WindowEncoder`, sorted keys, indentation and separators, the `TypeError` fallback to `encode()`, and the body of `get_json_content`. `encode` is a parameter, and the model stops at the dictionary handed to `json.dumps`.
- `pyflex.logger.setLevel` and every `print`: logging side effects that do not affect results.
- `parse_param_yaml`'s exception kinds: every shape error (TypeError or AttributeError) is the one error `NotAMapping`. Which component raises first depends on dictionary order, which the model does not fix.
- `Value` does not hold every value `yaml.safe_load` can return: it has no timestamps, no `!!set`, no `!!binary`, and no `.inf` or `.nan` (a Dafny `real` cannot hold them).
- YAML mapping keys are strings in the model. Non-string keys such as integers are not modelled.
