# wmata-rail-position: a Dafny model of the ingest pipeline

The ingester polls the WMATA GTFS-realtime rail-position feed. For each
vehicle entity it builds a document: a content hash (SHA-256 over the
key-sorted JSON of the entity), an optional `location` taken from the
vehicle's coordinates, and an `@timestamp` rendered as
`YYYY-MM-DDTHH:MM:SSZ`. It then bulk-indexes the documents into
Elasticsearch with `create` actions keyed by that hash. Each pass of the
`while True` loop ends its monitoring transaction with `success` or
`failure`, then sleeps.

There are two entry points:

- `app/app.py` validates a merged configuration and exits when a required
  key is absent or falsy.
- `main.py` loads two TOML files through `config.py`'s `ConfigLoader`, which
  only checks that the keys are present.

The two entry points also transform a vehicle without a `position`
differently.

The model is functional. Python values are a `Value` datatype whose
dictionaries are insertion-ordered lists of fields (`PyData`). An exception
is a `Failure` in a `Result`. A Python `for` loop that stops at the first
exception is `MapResult`. The modules are:

| module | what it covers |
|---|---|
| `Timestamp` | `format_unix_timestamp`: proleptic Gregorian arithmetic over the whole range Python's `datetime` represents, and the rendered text. The round trip is proved both through the day count and through the "Seconds Since the Epoch" expression of POSIX.1-2017, XBD section 4.16. |
| `Canonical` | the key-sorted form `json.dumps(..., sort_keys=True)` serialises. |
| `Transform` | `format_data` in both variants (`AppVariant` for app/app.py, `MainVariant` for main.py). |
| `Bulk` | `document_generator` and `send_to_elasticsearch`. The cluster is a map from (index, id) to document with `create` semantics. |
| `AppConfig` | `validate_config` and the configuration reads of app/app.py. |
| `ConfigLoader` | config.py's loader and main.py's start-up sequence. |
| `PollLoop` | `query_wmata_api`, the loop body, and a finite prefix of the loop for each entry point. |

Where the code's own documentation and the code disagree, the model
follows the code:

- The docstring of `query_wmata_api` (app/app.py:125-127 and 137-138,
  main.py:44-46 and 56-57) says that an error during the request or the
  parsing is logged and gives `None`, and that nothing is raised. In both
  files, however, only `requests.exceptions.RequestException` is caught. So
  a `DecodeError` from `ParseFromString` escapes `query_wmata_api` and ends
  the program. `PollLoop.Query` models the documented function,
  `PollLoop.QueryAsWrittenApp` and `PollLoop.QueryAsWrittenMain` the code.
- An iteration ends its transaction with `success` only after `format_data`
  and `send_to_elasticsearch` have both returned. An exception raised while
  transforming (a missing `position` in app/app.py, an unrepresentable
  timestamp) or while sending (a fault other than the three caught ones)
  escapes the loop, and the transaction is never ended.
  `PollLoop.StepSucceeds` states the rule.

The error kinds of `format_unix_timestamp` assume a 64-bit `time_t` and the
GNU C library's `gmtime_r`, as on Linux.

## Model

| member | source | states |
|---|---|---|
| PyData.SetKey | app/app.py:170-182 | `d[k] = v` gives `k` the new value and leaves every other key's value alone; an existing key keeps its place, a new key is appended last |
| PyData.Subscript | app/app.py:174-182 | `v[k]` succeeds exactly on a dictionary holding `k` and yields the stored value; a missing key raises KeyError naming it |
| PyData.Contains | main.py:91 | `k in v` tests key membership on a dictionary, substring containment on a string and element equality on a list; on any other value it raises TypeError |
| PyData.Occurs | main.py:91 | the left-to-right search of `k in s` on strings finds `k` exactly when `k` occurs somewhere in `s` as a contiguous piece |
| PyData.IntOf | app/app.py:113 | `int(x)` returns an integer unchanged and raises TypeError on None, lists and dictionaries |
| PyData.ParseDecimalText | app/app.py:113 | the decimal text MessageToDict writes for a uint64 timestamp is read back by `int` as the same number |
| Canonical.SortFields | app/app.py:168 | sorting the keys of a dictionary keeps exactly the same entries (a permutation) |
| Canonical.SortFieldsSorted | app/app.py:168 | entries with distinct keys come out strictly ascending by key |
| Canonical.SortedUnique | app/app.py:168 | two strictly key-sorted lists with the same entries are equal, so the sorted form depends only on the entries |
| Canonical.Canon | app/app.py:168 | the key-sorted form keeps the kind of every value and the length of every list, a dictionary keeps exactly its entries (their values in key-sorted form), and a scalar is unchanged |
| Canonical.CanonSorted | app/app.py:168 | a dictionary with distinct keys comes out with its keys in ascending order, the order `sort_keys=True` writes |
| Canonical.CanonOrderIndependent | app/app.py:168 | two values equal up to key order at every depth, with identical scalars (Python's `1 == 1.0 == True` are not identified), have the same key-sorted form |
| Timestamp.Decompose | app/app.py:113 | `datetime.fromtimestamp(t, utc)` for a representable `t` yields fields all in range (month 1-12, a day that exists in that month and year, hour < 24, minute and second < 60) that denote exactly the second `t` |
| Timestamp.CivilDate | app/app.py:113 | a day count within years 1-9999 maps to an in-range calendar date lying exactly that many days after 0001-01-01 |
| Timestamp.CivilDateUnique | app/app.py:113 | the date CivilDate finds is the only one that lies the given number of days after 0001-01-01 |
| Timestamp.DecomposeUnique | app/app.py:113 | every valid broken-down time is a representable second, and decomposing that second gives back the same fields |
| Timestamp.PosixRoundTrip | app/app.py:113-116 | for 0 <= t < 253402300800 the POSIX "Seconds Since the Epoch" expression on the decomposed fields gives back `t` |
| Timestamp.ParseRender | app/app.py:116 | the rendered text has the `YYYY-MM-DDTHH:MM:SSZ` shape and reading its zero-padded fields back recovers every field |
| Timestamp.FormatUnixTimestamp | app/app.py:102-116 | succeeds exactly for seconds in years 1-9999; otherwise raises OverflowError outside a 64-bit `time_t`, OSError when `gmtime_r` cannot hold the year in its `int` field, and ValueError for the remaining years; the text is 20 characters `YYYY-MM-DDTHH:MM:SSZ` whose fields are in range and denote `t` again |
| Timestamp.FormatUnixTimestampErrors | app/app.py:113 | one witness for each error: 2^63 overflows `time_t`, 2^63 - 1 overflows `gmtime_r`, 253402300800 (year 10000) is out of `datetime`'s range |
| Timestamp.FormatExample | app/app.py:104 | the docstring's example: 1420114230 renders as `2015-01-01T12:10:30Z` |
| Transform.ContentHash | app/app.py:167-169 | the `hash` is the fingerprint of the entity's key-sorted form, so it depends on the entity only through Canonical.Canon (see Transform.HashIgnoresKeyOrder) |
| Transform.LocationFrom | main.py:92-99 | the coordinate test succeeds exactly when the position is a dictionary holding a longitude, and a latitude too after a truthy longitude (`and` short-circuits); it yields `{lon, lat}` exactly when both are truthy; a missing coordinate raises KeyError naming it |
| Transform.Location | app/app.py:173-180 | the location step succeeds exactly when every lookup it performs succeeds (in main.py first `"position" in vehicle`), and yields `{lon, lat}` exactly when both coordinates are present and truthy, nothing otherwise |
| Transform.TimestampText | app/app.py:182 | the `@timestamp` step succeeds exactly when `vehicle.timestamp` is present, `int` accepts it and it falls in years 1-9999; its text reads back as that second |
| Transform.SameVehicle | app/app.py:173-182 | whether an entity transforms, and its location and timestamp, depend only on its `vehicle` |
| Transform.AddFieldsValues | app/app.py:170-182 | after the three assignments `hash`, `location` (when given) and `@timestamp` hold what was assigned, and every other key keeps its value |
| Transform.AddFieldsKeys | app/app.py:170-182 | the original keys stay at the front of the document in their order |
| Transform.AddFieldsAppend | app/app.py:170-182 | on an entity lacking all three keys, the assignments append `hash`, the optional `location`, then `@timestamp` |
| Transform.FormatRecord | app/app.py:163-184 | one loop pass succeeds exactly for a transformable entity (dictionary, readable location, valid timestamp) and then gives a dictionary |
| Transform.FormatRecordContents | app/app.py:165-184 | the document's `hash` is the fingerprint of the entity before any field was added; `location` is the `{lon, lat}` pair exactly when both coordinates are truthy and otherwise whatever the entity held; `@timestamp` is the vehicle timestamp's text; no other field is altered |
| Transform.FormatData | app/app.py:159-185 | one document per entity in entity order, each the transform of its entity; the call succeeds exactly when every entity is transformable |
| Transform.FormatDataFirstFailure | app/app.py:163-185 | the exception `format_data` raises is the one of the first entity that cannot be transformed |
| Transform.EveryDocumentStamped | main.py:86-101 | every returned document carries `hash` and `@timestamp` |
| Transform.HashIgnoresKeyOrder | app/app.py:165-170 | entities equal up to key order at every depth, with identical scalars, get the same hash |
| Transform.DocumentExtendsEntity | app/app.py:165-184 | dropping the added keys from a document gives back the entity, whose fingerprint is the stored `hash`: the hash excludes the added fields |
| Transform.AppRejectsMissingPosition | app/app.py:173-176 | in app/app.py a vehicle without `position` makes the transform raise KeyError("position") |
| Transform.MainToleratesMissingPosition | main.py:91-101 | in main.py a vehicle without `position` gets no location and transforms exactly when its timestamp is valid |
| Bulk.ActionFor | app/app.py:229-234 | a record yields an action exactly when it is a dictionary holding `hash`: a `create` of the whole record in the given index under that hash; otherwise KeyError("hash"), or TypeError for a non-dictionary |
| Bulk.DocumentGenerator | app/app.py:215-234 | one action per record in order, with `_op_type` `create`, the given index, `_id` the record's `hash` and `_source` the record; it fails exactly when some record has no `hash` |
| Bulk.GeneratorStopsAtMissingHash | app/app.py:228-232 | the first record without `hash` stops generation with KeyError("hash") |
| Bulk.GeneratorKeepsRecords | app/app.py:233 | the action sources are the records themselves, in order |
| Bulk.GeneratorAcceptsFormattedData | main.py:147-153 | every document `format_data` returns yields an action, whose id is the content hash of its entity |
| Bulk.ApplyAll | app/app.py:204-210 | `create` actions never overwrite a stored document; the stored ids afterwards are the earlier ones plus every action's; every rejected action belongs to the batch |
| Bulk.ApplyAllRejectsTaken | app/app.py:204-210 | every action whose id is taken, by a stored document or by an earlier action of the same batch, is rejected |
| Bulk.ApplyAllRejectsOnlyTaken | app/app.py:204-210 | every rejected action is one of the batch whose id was taken |
| Bulk.ApplyAllStoresFree | app/app.py:204-210 | every action whose id is free stores its own source under that id |
| Bulk.ApplyAllCounts | app/app.py:204-210 | each action is either rejected or adds exactly one document |
| Bulk.RepeatedActionRejectedOnce | app/app.py:229-234 | an entity that appears twice in one feed is stored once; the second `create` is rejected |
| Bulk.ApplyAllKeys | app/app.py:204-210 | every action's id is stored afterwards, and every newly stored id belongs to some action |
| Bulk.AllTakenRejected | app/app.py:204-210 | when every id is already taken, nothing changes and every action is reported as failed |
| Bulk.DistinctIdsAllStored | app/app.py:204-210 | a batch of distinct, untaken ids is stored in full, each under its own id, with no rejection |
| Bulk.ApplyAllIdempotent | app/app.py:229-233 | sending the same batch again leaves the cluster unchanged and rejects every action as a duplicate |
| Bulk.SendToElasticsearch | app/app.py:188-212 | raises exactly when a record has no `hash` or the link breaks with a fault other than Connection, Transport or Request error; a caught fault is reported; stored documents are never altered |
| Bulk.SendDeliversAll | app/app.py:199-212 | with the link up, every record is stored under its hash and nothing else is added |
| AppConfig.MissingKeys | app/app.py:87-91 | a key is listed exactly when it is required and absent from the table (a missing table counts as empty) or falsy |
| AppConfig.MissingKeysInOrder | app/app.py:87-91 | missing keys keep the order of `required_keys` |
| AppConfig.Lower | app/app.py:95 | `str.lower()` on ASCII: same length, upper-case letters lowered, everything else kept |
| AppConfig.BulletsRoundTrip | app/app.py:97-98 | the ` - key` log lines name exactly the missing keys, in order |
| AppConfig.ValidateConfig | app/app.py:78-99 | exits with code 1 exactly when some required key is missing; the log is the header naming the table, followed by exactly one ` - key` line per missing key in order, and the keys read back off those lines |
| AppConfig.Lookup | app/app.py:298-306 | `CFG[category][key]` yields the stored value, and otherwise raises KeyError for the table or else the key |
| AppConfig.ValidatedKeysReadable | app/app.py:259-261 | after validation passes, every required key can be read and is truthy |
| AppConfig.ValidateStartup | app/app.py:259-261 | settings are checked before secrets; a failure exits with code 1 and logs the header of the first failing table |
| AppConfig.ValidateStartupPasses | app/app.py:240-261 | start-up passes exactly when every required setting and secret is present and truthy |
| AppConfig.FeedEndpointAsWritten | app/app.py:298-301 | the loop's URL read succeeds exactly when SECRETS holds `WMATA_API_URL`, and otherwise raises KeyError for the table or else the key |
| AppConfig.FeedEndpoint | app/app.py:245 | the corrected URL read, from SETTINGS where `WMATA_API_URL` is required: it succeeds exactly when SETTINGS holds the key, and yields the stored value |
| AppConfig.FeedEndpointAsWrittenRaises | app/app.py:298-301 | a configuration that passes validation, with the URL under SETTINGS, makes that read raise KeyError |
| AppConfig.FeedEndpointAvailable | app/app.py:298-301 | after validation passes, the corrected read `AppConfig.FeedEndpoint` always gives a truthy URL |
| ConfigLoader.NewLoader | config.py:23-31 | the file paths come from CONFIG_SETTINGS_FILE and CONFIG_SECRETS_FILE, with the documented defaults; both tables start empty |
| ConfigLoader.LoadConfig | config.py:33-56 | both existence checks come first, settings before secrets; on success both tables are the parsed files; a malformed secrets file leaves the parsed settings in place |
| ConfigLoader.SettingsFileCheckedFirst | config.py:35-39 | a missing settings file is reported whatever state the secrets file is in |
| ConfigLoader.Absent | config.py:69-70 | a key is listed exactly when it is required and not present, whatever its value |
| ConfigLoader.AbsentInOrder | config.py:69-70 | absent keys keep the order of the required list |
| ConfigLoader.SplitJoin | config.py:73-76 | the `", "`-joined key list in the message reads back as exactly the missing keys, when no key contains a comma |
| ConfigLoader.ValidateConfig | config.py:58-76 | passes exactly when every required key is present; missing settings are reported first and alone; secrets only when every setting is present; each message lists the missing keys in order |
| ConfigLoader.ValidationIgnoresValues | config.py:69-70 | only the keys matter: tables with the same keys are judged alike whatever their values |
| ConfigLoader.FalsyValueAccepted | config.py:69 | an empty INDEX_NAME passes here, but makes app/app.py's validator exit |
| ConfigLoader.Lookup | config.py:78-91 | `get` reads settings exactly when `config_type == "settings"` and secrets otherwise, and returns the stored value or else the default |
| ConfigLoader.ValidatedLookupIgnoresDefault | config.py:78-91 | after validation passes, reading a required key never falls back to the default |
| ConfigLoader.Startup | main.py:233-257 | main.py starts exactly when both files exist and parse and every required key is present; the loader then holds the parsed files |
| PollLoop.QueryAsWrittenApp | app/app.py:147-156 | a failed request raises NameError("apm_client"); an unparsable body raises DecodeError; a parsed body is returned |
| PollLoop.QueryAsWrittenMain | main.py:66-74 | a failed request gives None; an unparsable body raises DecodeError; a parsed body is returned |
| PollLoop.Query | app/app.py:121-144 | as documented: nothing escapes; a message is returned exactly when the body parses, and it holds the parsed entities |
| PollLoop.QueryAsWrittenAgrees | app/app.py:147-156 | both functions as written agree with the documented one except where they raise, and exactly where they raise |
| PollLoop.QueryAsWrittenRaises | app/app.py:147-156 | the concrete inputs on which the functions as written raise while the documented one gives None |
| PollLoop.Step | app/app.py:303-311 | a fetch that raises ends the program with nothing run; the transaction ends `failure` exactly when no message came, and then nothing is formatted or sent; stored documents are never altered |
| PollLoop.StepSucceeds | app/app.py:303-311 | the transaction ends `success` exactly when a message came, every entity transforms, and the link does not break with an uncaught fault |
| PollLoop.SuccessDespiteRejections | app/app.py:303-308 | rejected documents and a caught Connection, Transport or Request error still end the transaction with `success` |
| PollLoop.TimeSleep | app/app.py:315 | `time.sleep(d)` sleeps exactly when `d` is non-negative and its nanosecond count fits in a signed 64-bit integer; it raises OverflowError exactly when that count does not fit, whatever the sign, and ValueError for the remaining negative durations |
| PollLoop.TimeSleepLimits | app/app.py:315 | the boundaries: 9223372036 seconds sleeps, one more (and ten billion) overflows, -1 is a ValueError, -9223372037 overflows |
| PollLoop.Loop | app/app.py:295-315 | every completed iteration slept the evaluated duration, one `time.sleep` accepts; the run stops only on an exception; configuration reads that raise stop the program before anything is fetched |
| PollLoop.RejectedSleepStopsAfterFirst | app/app.py:313-315 | a duration `time.sleep` rejects stops the loop right after its first iteration with OverflowError or ValueError |
| PollLoop.LoopKeepsStored | app/app.py:295-315 | documents already stored are never altered or removed by the loop |
| PollLoop.LoopEndings | app/app.py:303-311 | every completed iteration ends `failure` exactly when its query returned None |
| PollLoop.MainRun | main.py:200-225 | main.py parses the duration once before the loop: a bad duration stops the program before any fetch, and every sleep uses the parsed value |
| PollLoop.Reads | app/app.py:298-301 | the URL is read before the key; the iteration raises the exception of the first read that fails, and proceeds only when both succeed |
| PollLoop.ApiKeyReadable | app/app.py:300 | after validation passes, the key read of every iteration succeeds |
| PollLoop.AppRun | app/app.py:295-315 | app/app.py as written: every sleep uses `int` of the validated duration, read after each iteration; when SECRETS lacks `WMATA_API_URL` the program stops with that KeyError before anything is fetched |
| PollLoop.AppRunNeverEndsInFailure | app/app.py:303-311 | as written, app/app.py never ends a transaction with `failure`: its query either returns a message or raises |
| PollLoop.AppRunCorrected | app/app.py:295-315 | with the URL read from SETTINGS and the documented query, an iteration ends `failure` exactly when no parsable response came back |
| PollLoop.EmptyMessageSucceeds | app/app.py:303-308 | a message without entities ends the iteration with `success` and stores nothing |
| PollLoop.SleepFailureStopsAfterFirst | app/app.py:313-315 | a duration that does not evaluate stops the loop right after its first iteration |
| PollLoop.BadDurationTiming | main.py:200-225 | with a duration `int` rejects and an empty first message, main.py completes no iteration, while app/app.py completes one with `success` and then stops with that exception |

## Left out

- HTTP and protobuf decoding: the request and `ParseFromString` are a `Network` outcome given to `query_wmata_api`. `MessageToDict` is taken as already applied: an entity is the dictionary it produces.
- SHA-256 and the byte layout of `json.dumps`: a `Fingerprint` parameter applied to the key-sorted value stands in for both. So "same hash" is proved only for the same key-sorted value, not collision freedom.
- Floating-point coordinates are `real` values with Python truthiness (0.0 is falsy). No float arithmetic takes place in the core.
- Logging, Elastic APM spans and transactions, `configure_logging`, and the `print` calls in `load_config` are not modelled. They have no effect on data or control flow, except the `apm_client` name lookup, which is modelled.
- The Elasticsearch client set-up and its `ping` at start-up are left out: they are network calls.
- `time.sleep` timing and the infinite loop: the loop is run over a finite list of rounds, and the model records the duration each sleep was given. The errors `time.sleep` raises follow CPython, which converts the duration to a 64-bit nanosecond count (`PollLoop.TimeSleep`).
- `MODE` and the TOML loading of app/config/__init__.py are not part of this model. The merged configuration is taken as given.
- Timestamp.FormatUnixTimestamp: the OverflowError and OSError boundaries are those of a 64-bit `time_t` and the GNU C library; other platforms draw them elsewhere.
- Timestamp.FormatUnixTimestamp: always pads `%Y` to four digits. glibc's `strftime` writes years below 1000 without padding. No feed timestamp falls there.
- PyData.IntOf: `int` on text accepts only an optional `-` and ASCII decimal digits. Python also accepts surrounding whitespace, a leading `+`, digit-separating underscores and the decimal digits of other scripts (Arabic-Indic digits, for example).
- AppConfig.Lower: lowers ASCII letters only. The category names passed to it are ASCII.
- Bulk.SendToElasticsearch: a record without `hash` fails the whole batch before anything is sent. `streaming_bulk` would deliver the records of any bulk chunk (500 actions by default) completed before it; a batch shorter than one chunk is not sent at all, as in the model. Documents from `format_data` always carry a hash (`Bulk.GeneratorAcceptsFormattedData`).
- Bulk.SendToElasticsearch: when it raises, the documents already written before the fault are not kept in the model's store. The loop ends there, so nothing after depends on them.
- Bulk.ApplyAll: the rejected actions are reported by value. The model proves which values are in the list and how long it is, but not their order.
- `streaming_bulk` chunking and per-document errors other than a duplicate id (mapping errors and so on) are not modelled. A rejected action is one whose id is already taken.
- `Path` normalisation of the configuration file names is not modelled. Paths are compared as given.
- The annotation scripts (annotate_elastic_apm.py, annotate-elastic-apm.py) are not part of this model.

## Findings

| source | as written | input that shows it | evidently intended | confidence | as-written member | corrected member |
|---|---|---|---|---|---|---|
| app/app.py:298-301 | the loop reads `CFG["SECRETS"]["WMATA_API_URL"]`, but `WMATA_API_URL` is a required setting, validated under SETTINGS (line 245) | a configuration with every required key under its validated table: validation passes, then the first iteration raises KeyError (AppConfig.FeedEndpointAsWrittenRaises) | read the URL from SETTINGS, as main.py does (main.py:200) | not executed | AppConfig.FeedEndpointAsWritten | AppConfig.FeedEndpointAvailable |
| app/app.py:152-156 | the `except` branch calls `apm_client.capture_exception()`, but `apm_client` is a local of `main()` | any `RequestException` from `requests.get`: the handler raises NameError instead of returning None (PollLoop.QueryAsWrittenRaises) | return None after logging, as the docstring says | not executed | PollLoop.QueryAsWrittenApp | PollLoop.Query |
| app/app.py:303-311 | the `else` branch ends the transaction with `failure`, but the query of app/app.py either returns a FeedMessage, which is always truthy, or raises | any failed request: the iteration raises NameError instead of ending `failure` (PollLoop.AppRunNeverEndsInFailure) | a round without a message ends `failure`, as in main.py | not executed | PollLoop.AppRunNeverEndsInFailure | PollLoop.AppRunCorrected |
| main.py:66-74 | only `RequestException` is caught, so a body `ParseFromString` rejects raises DecodeError out of the loop (app/app.py:147-156 likewise) | a response whose body is not a valid FeedMessage (PollLoop.QueryAsWrittenRaises) | "error during the request or parsing" gives None, as the docstring says | not executed | PollLoop.QueryAsWrittenMain | PollLoop.Query |
