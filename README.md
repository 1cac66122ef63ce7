# LYWSD03MMC collector and viewer, modelled in Dafny

`main.py` is one process with two halves. The BLE collector finds the two
Xiaomi LYWSD03MMC thermometers and keeps one connection task per device;
each task appends one CSV record per notification to that device's log
under `logs/`. The Tk viewer picks two of those logs, lays out one panel
for each, and shows each panel's latest reading and a rolling chart.

This project models the decision logic of both halves and proves what it
promises:

- `Payload`: the notification frame and its decoding (`decode_thv`). The
  battery estimate (`battery_percent_from_mv`) is clamped and monotone.
- `Address`: address normalisation, the configured allowlist, and
  `match_target`.
- `PyDict`: Python's insertion-ordered `dict` as a value (`d[k] = v`,
  `del d[k]`, `values()`).
- `Discovery`: `discover_targets`. The radio is an input: the
  advertisements heard before each poll.
- `LogFormat`: the log path (`_friendly_csv_path_for_addr`) and the CSV
  records, written as `csv.writer` writes them.
- `Supervisor`: `device_task`. It covers the retry loop, the check for the
  notify characteristic, the listen loop, the notification handler and the
  log it grows. The stop event is a class whose flag, once set, stays set.
  The log directory is a class holding each file's lines.
- `Gui`: `pick_two` and `App.reload`. `App` is a class whose `panels` dict
  the reload loops change.
- `PanelData`: how a panel reads its log:
  - `read_tail` gives the chart's bounded window;
  - `read_last` gives the latest reading;
  - `_set_xaxis_formatter` chooses the x-axis tick format.
- `Common`: `Option`, bytes, ASCII string helpers, decimal numerals and
  `str.split`/`str.join` on one character.

Everything the program gets from the outside is a parameter.

| source | how the model receives it |
|---|---|
| the radio | how each connection attempt goes; the notifications of each second |
| the clock | an opaque timestamp string |
| a file | the records `csv.reader` delivers, or the lines the collector has written |
| `float()` and `datetime.fromisoformat()` | functions that may fail (`string -> Option<_>`) |
| the stop event, as seen by one task | the number of the first read that finds it set |

## Model

| member | source | states |
|---|---|---|
| Payload.BatteryPercent | main.py:59-62 | The percentage lies in [0, 100]. It is 0 at or below 2100 mV and 100 at or above 3100 mV. In between, it is within half a percent of (mv - 2100) / 10. |
| Payload.BatteryMonotone | main.py:59-62 | More millivolts never give a lower percentage. |
| Payload.U16Le | main.py:67-69 | A little-endian unsigned 16-bit value is below 65536. |
| Payload.DecodeThv | main.py:64-70 | The result is None exactly when the frame has fewer than 5 bytes. Otherwise the values fit 16, 8 and 16 bits, and the battery is a percentage. |
| Payload.DecodeEncode | main.py:64-70 | A frame built from (centi-degrees, humidity, millivolts) decodes back to those values, whatever bytes follow the fifth. The battery is BatteryPercent of the millivolts. |
| Payload.EncodeDecode | main.py:64-70 | Re-encoding an accepted frame's values gives its first five bytes. |
| Payload.DecodeIgnoresTrailing | main.py:64-70 | Only the first five bytes matter. |
| Payload.DecodeSample | main.py:64-70 | The frame 2E 09 37 AB 0B decodes to 23.50 C, 55 %, 2987 mV and 89 %. |
| Common.ContainsIff | main.py:74 | `kw in name` holds exactly when `kw` occurs in `name` at some position. |
| Address.Normalize | main.py:73 | Normalisation keeps the length and works one character at a time. Its result has no '-' and no lower-case ASCII. |
| Address.NormalizeIsReplaceUpper | main.py:42 | The character-wise definition equals `.replace("-", ":").upper()`. |
| Address.NormalizeIdempotent | main.py:42 | Normalising twice is normalising once. |
| Address.NormalizeSameIff | main.py:73 | Two addresses normalise identically exactly when they differ only in the '-' or ':' separator and in letter case. |
| Address.KnownAddrsNormalized | main.py:38-42 | The allowlist equals the normalised non-empty configured addresses. |
| Address.MatchTarget | main.py:72-75 | A device matches exactly when the allowlist is non-empty and holds its normalised address, or its name is non-empty and contains a keyword. |
| Address.MatchTargetSpelling | main.py:72-75 | Whether a device matches does not depend on how its address is spelled. |
| Address.MatchTargetNormalized | main.py:81-82 | Matching the already-normalised address, as the callback does, gives the same answer. |
| Address.SpellingSample | main.py:42 | "a4-c1-38-dd-ac-a7" normalises to "A4:C1:38:DD:AC:A7". |
| Address.MatchByAddressSample | main.py:73 | A bound address in another spelling matches even without a name. |
| Address.MatchByNameSample | main.py:74 | An unknown address matches through the keyword in its name. |
| PyDict.Dict.Put | main.py:83 | `d[k] = v` overwrites an existing key in place and appends a new one. The dict stays valid. |
| PyDict.Dict.Remove | main.py:391 | `del d[k]` drops the key and its entry and keeps the order of the other keys. |
| PyDict.Dict.Values | main.py:95 | `list(d.values())` gives the entries in key order. |
| PyDict.RemoveAt | main.py:391 | Deleting the key at position p cuts exactly position p out of the key order. |
| PyDict.Empty | main.py:78 | `{}` is valid and has no keys. |
| PyDict.LenIsCardinality | main.py:89 | `len(found)` is the number of distinct keys. |
| Discovery.Store | main.py:81-83 | A matching advertisement is stored under its key: a new key goes last, an old key keeps its place and gets the new advertisement. A non-match changes nothing. |
| Discovery.HitIff | main.py:81-82 | An advertisement is a sighting of key k exactly when it matches and its normalised address is k. |
| Discovery.SightedIsStored | main.py:80-83 | Running the callback on each advertisement is the same as storing what it observes of each. |
| Discovery.Record | main.py:80-83 | The callback keeps the dict valid. A matching device is stored under its normalised address: a new address goes last, a known one keeps its place and gets the new device. A device that does not match changes nothing. |
| Discovery.StoredDescribes | main.py:78-83 | After any advertisements, `found` holds exactly the devices sighted. They are in first-sighting order, and each maps to its most recent advertisement. |
| Discovery.HeldIsSighted | main.py:85-91 | After n batches, `found` is what the callback makes of all n batches in arrival order. |
| Discovery.RecordBatch | main.py:80-83 | Delivering batch i, one callback at a time, turns the dict of i batches into the dict of i + 1. |
| Discovery.PyTake | main.py:99 | `devices[:want]` is a prefix of the list. It has min(want, n) elements for a non-negative `want`, and max(n + want, 0) for a negative one, as Python's slice rules give. |
| Discovery.StopRule | main.py:88-91 | Polling stops at the first poll that holds at least `want` devices, or once the budget is spent. |
| Discovery.DiscoverTargets | main.py:77-99 | The scan stops by the stopping rule and returns the dict's first `want` values after the batches seen. |
| Discovery.DiscoveredShape | main.py:95-99 | At most `want` devices are returned. They have pairwise distinct normalised addresses and each matches. They come in first-sighting order, and each is its device's latest advertisement. |
| Discovery.TakenFromSighted | main.py:95-99 | The i-th device returned is the latest advertisement stored under the i-th key. |
| Discovery.LatestSighting | main.py:83 | A device's last sighting is an advertisement that matches under its key. |
| LogFormat.UnescapeEscape | main.py:145 | Reading the inside of a quoted field back, one quote for each doubled quote, gives the field that was written. |
| LogFormat.CsvField | main.py:145 | A field without comma, quote or line break is written verbatim; any other field is quoted. |
| LogFormat.CsvRecord | main.py:145 | One `writerow` line, without its terminator. PlainRecordSplits states that a record of plain fields splits back into them. |
| LogFormat.PlainRecordSplits | main.py:145 | A record of plain fields splits back into its fields at the commas. |
| LogFormat.FormatCenti | main.py:145 | `f"{t_c:.2f}"` has at least four characters, with the point third from the end. |
| LogFormat.ParseFormatCenti | main.py:145 | The temperature column reads back as the centi-degrees it was written from. |
| LogFormat.RowFields | main.py:145 | A data record has as many fields as the header. |
| LogFormat.RowLine | main.py:145 | The data record of one reading. RowRoundTrip states that it splits back into its five fields, and RowIsNotHeader that it is never the header. |
| LogFormat.RowRoundTrip | main.py:141-145 | For a timestamp with no comma, quote or line break, a record splits into its five fields. The timestamp comes back unchanged, and each number reads back as the value written. |
| LogFormat.HeaderSplits | main.py:114 | The header splits into its five column names. |
| LogFormat.RowIsNotHeader | main.py:114 | No data record equals the header. |
| LogFormat.PathJoin | main.py:103 | `os.path.join` follows POSIX: an absolute second part replaces the first; otherwise one separator joins them, and none is added when the first part is empty or already ends in '/'. |
| LogFormat.LogStem | main.py:102 | Character by character, the stem is the display name with each space turned into '_' and every other character kept; this holds also for an address without a friendly name. |
| LogFormat.CsvPath | main.py:101-103 | The log path of an address. CsvPathShape, InsideLogPath and OutsideLogPath state what it is. |
| LogFormat.CsvPathShape | main.py:101-103 | Every log path ends in ".csv". Unless the stem is absolute, it is "logs/" + stem + ".csv". |
| LogFormat.InsideLogPath | main.py:101-103 | The inside thermometer logs to logs/Lab_inside.csv. |
| LogFormat.OutsideLogPath | main.py:101-103 | The outside thermometer logs to logs/Lab_outside.csv. |
| Supervisor.AnyCharacteristic | main.py:128-131 | The inner `any` holds exactly when some characteristic notifies. |
| Supervisor.AnyNotifies | main.py:127-133 | The search succeeds exactly when the inner `any` holds for some service. |
| Supervisor.AnyNotifiesIff | main.py:127-133 | The search finds the characteristic exactly when some service has one whose lower-cased UUID equals UUID_TH_NOTIFY and whose properties include notify or indicate. |
| Supervisor.TryAttempt | main.py:119-150 | The body of the `try` up to `start_notify`, by cases. TryAttemptIff states what each outcome means. |
| Supervisor.TryAttemptIff | main.py:119-150 | An attempt subscribes only when the link is up and the characteristic exists. It listens exactly when the subscription also succeeds. A failure starts with Connecting and never reaches Listening. |
| Supervisor.OneConnect | main.py:120-121 | One attempt contains one Connecting. |
| Supervisor.RowOf | main.py:135-147 | The handler writes a record exactly when the frame decodes and the append does not fail. That record is the row line of the decoded reading. |
| Supervisor.RowsAppend | main.py:135-147 | The records for two runs of notifications are the records of each, in order. |
| Supervisor.RowsCount | main.py:137-147 | One record is written per successful notification. |
| Supervisor.RowsAreNotHeaders | main.py:145 | With ISO timestamps, no record the handler writes is a header. |
| Supervisor.Supervise | main.py:118-166 | The whole retry loop as a value: trace, final log, notifications heard, flag reads and attempts. The lemmas below state its properties: SuperviseStopsAtFlag, SuperviseTrace, AttemptsAreConnects, RetriesUntilStop, SuperviseLog, StoppedMeansDone and LogContract. |
| Supervisor.SuperviseStopsAtFlag | main.py:118-166 | A run ends at the first read that finds the flag set, and at no earlier read. |
| Supervisor.SuperviseTrace | main.py:118-166 | The trace ends in Stopped, and Stopped appears nowhere else. Listening is only second to last. Backoff is always followed by a new Connecting or by the end. |
| Supervisor.AttemptsAreConnects | main.py:118-121 | Attempts made equal the Connecting phases in the trace. |
| Supervisor.RetriesUntilStop | main.py:162-166 | When every attempt fails there is no retry limit: one attempt per two clear reads until stop, and nothing is logged. |
| Supervisor.SuperviseLog | main.py:135-161 | The log only grows, by the records of the notifications heard. Only a run that reaches Listening hears any. |
| Supervisor.StoppedMeansDone | main.py:118 | Once the flag reads set at the loop head, the task makes no attempt and writes no record. |
| Supervisor.LogContract | main.py:110-147 | A fresh file gets exactly one header, first, then one non-header record per success. An existing file keeps its lines and gains only non-header records. |
| Supervisor.LogGrowth | main.py:143-145 | Appending keeps the old lines and adds one non-header line per success. |
| Supervisor.TurnStops | main.py:118 | A loop turn that finds the flag set ends the run with Stopped. |
| Supervisor.TurnListens | main.py:150-161 | A turn that subscribes listens until the flag reads set, then returns. |
| Supervisor.TurnFails | main.py:162-166 | A failed turn stops if the flag is set after the error. Otherwise it backs off and begins the next attempt. |
| Supervisor.StopEvent.IsSet | main.py:118 | A read finds the flag set exactly from the stopAt-th read on, and each read is counted. |
| Supervisor.LogDir.Exists | main.py:111 | `os.path.exists` reports whether the path has a file. |
| Supervisor.LogDir.Create | main.py:112-114 | Writing the header creates the file with that one line. |
| Supervisor.LogDir.Append | main.py:143-145 | Appending adds one line at the end of that file only. |
| Supervisor.Handler | main.py:135-148 | The handler appends exactly RowOf's record, or nothing. |
| Supervisor.Deliver | main.py:153-154 | The handler calls during one sleep append the records of that second's notifications. |
| Supervisor.ListenLoop | main.py:153-154 | The loop polls until its first set read and hears the notifications of that many seconds. The log gains their records. |
| Supervisor.OpenLog | main.py:110-114 | The header is written only when the file does not exist, and an existing file is kept as it is. When that write fails the task goes no further and no file changes. |
| Supervisor.RetryLoop | main.py:118-166 | The loop's trace, attempts, flag reads and final log are those of Supervise. No other file changes. |
| Supervisor.DeviceTask | main.py:105-166 | The task logs to the normalised address's path and writes the header only when that file does not exist. It then behaves as Supervise. If writing the header fails, it ends before any attempt with every file unchanged. |
| Gui.FilterHas | main.py:395 | The two comprehensions keep exactly the elements whose condition holds. |
| Gui.PreferredFirstPermutes | main.py:393-395 | The preferred-first order neither loses nor duplicates a key. |
| Gui.Selection | main.py:192-204 | At most two keys are chosen. SelectionShape states which ones, and in what order. |
| Gui.SelectionShape | main.py:192-204 | `pick_two` chooses min(2, n) distinct input keys. It takes every preferred key present, in preferred order, then fills up with the other keys in input order. |
| Gui.PickTwo | main.py:192-204 | The chosen keys are that selection, in insertion order, each with its input path. |
| Gui.TakePreferred | main.py:193-198 | The first loop takes the preferred keys that are present, in preferred order. |
| Gui.FillUp | main.py:199-203 | The second loop appends the input's other keys in order and stops at two. |
| Gui.ReloadOrder | main.py:393-394 | The reload order holds exactly the chosen keys. PreferredFirstPermutes states that none is repeated. |
| Gui.ReloadOrderIsSelection | main.py:393-396 | Applied to what `pick_two` chose, the reload order keeps the insertion order. |
| Gui.ReloadShowsSelection | main.py:384-403 | After `reload` there is a panel for exactly the chosen logs. |
| Gui.OrderDistinct | main.py:393-396 | The keys laid out are distinct keys of `chosen`. |
| Gui.NewPanel | main.py:398-401 | The title is the key with underscores turned into spaces. The panel keeps the path and the column. |
| Gui.App.constructor | main.py:374 | The viewer starts with no panels. |
| Gui.App.RemoveStale | main.py:388-391 | After the first loop only the panels of chosen keys remain. They keep their order and contents. |
| Gui.App.Place | main.py:395-402 | The second loop gives each key of `first` without a panel a new one, titled from the key, at the column of its position. Panels that existed are untouched. |
| Gui.App.LayOut | main.py:393-402 | Each laid-out key without a panel gets a new one, titled from the key, at the column of its position. Existing panels are untouched. |
| Gui.App.Reload | main.py:384-405 | The surviving panels come first and are unchanged. Each chosen key without a panel then gets a new one at the column of its place in the reload order. |
| PanelData.Records | main.py:234-235 | After `next(r, None)` the loop sees the rows after the first, one for one. There is one fewer than a non-empty file's rows, and record i is row i + 1. |
| PanelData.Accept | main.py:236-245 | A record yields a point exactly when it has at least five fields and its timestamp, temperature and humidity parse. |
| PanelData.LastN | main.py:230 | The last n elements: a suffix of length min(n, size). |
| PanelData.Push | main.py:245 | Appending to a full deque(maxlen=n) drops its leftmost element. The length stays at most n. |
| PanelData.PushLastN | main.py:230-245 | A deque with maxlen n holds the last n elements ever appended. |
| PanelData.ReadTail | main.py:229-247 | The result is the last `max_rows` points of the accepted records after the header, in file order. |
| PanelData.Kept | main.py:235-245 | The loop keeps at most one point per record. KeptSound, KeptAll and KeptAppend state which points. |
| PanelData.KeptAppend | main.py:235-245 | The points of two stretches of file are the points of each. |
| PanelData.KeptSound | main.py:236-245 | Every point comes from a record of at least five fields that parses to it. |
| PanelData.KeptAll | main.py:236-245 | When every record parses, every record gives a point. |
| PanelData.TailShape | main.py:229-247 | The window holds at most `max_rows` of the newest points. When all records parse it holds min(max_rows, records). The first row never contributes. |
| PanelData.LastNonEmpty | main.py:213-214 | The `last` kept is non-empty and is one of the records. |
| PanelData.LastNonEmptySpec | main.py:211-214 | `last` is None exactly when every record is empty. Otherwise it is a record after which all records are empty. |
| PanelData.LatestFields | main.py:218-227 | The dict exists exactly when the record has five fields and its four numbers parse. |
| PanelData.LatestOf | main.py:206-227 | A latest reading comes only from a file that exists, is not empty and was read to the end, and its timestamp is never the header's column name. |
| PanelData.ReadLast | main.py:206-227 | The result is None for a missing or empty file, a failed read, no non-empty record, or a header as last record. Otherwise it is the last record's fields. |
| PanelData.HeaderOnlyHasNoLatest | main.py:216-217 | A log holding only its header, even with blank lines after it, has no latest reading. |
| PanelData.CollectorRowIsLatest | main.py:206-227 | After the collector appends a record, the panel's latest reading is that record's values. |
| PanelData.Min | main.py:309-310 | The minimum is an element and no element is smaller. |
| PanelData.Max | main.py:309-310 | The maximum is an element and no element is larger. |
| PanelData.SortedSpan | main.py:309-310 | `sorted(xs)[-1] - sorted(xs)[0]` is max minus min. |
| PanelData.XAxisFormat | main.py:305-319 | No points means no change. The date-only format is used exactly above 432000 s, date + hour above 86400 s, time only otherwise. All tests are strict. |
| PanelData.FormatIgnoresOrder | main.py:305-319 | The format depends only on which timestamps there are. |
| PanelData.FormatMonotone | main.py:313-319 | A longer span never gives a finer format. |

## Left out

- BLE itself (scanner, client, `start_notify`/`stop_notify`): an attempt's outcome and the notifications of each second are inputs. The one-second sleep before the service lookup has no effect in the model.
- asyncio scheduling, `asyncio.gather`, the collector thread, `collector_main` and `run_collector_in_background`: concurrency is not modelled. Each task sees only its own reads of the shared stop event. A callback that runs during `scanner.stop()`, during `start_notify`, during `await client.stop_notify` (main.py:157) or while the `async with` block closes the client is not modelled. Such a callback could append records after the task's last read of the flag; Supervisor.StoppedMeansDone and Supervisor.SuperviseLog assume that none is written then.
- The Tk and matplotlib widgets: frames, labels, `wrap.destroy`, grid weights, drawing, `_tick`, `DevicePanel.refresh` (text formatting with `.1f`/`.0f`/`.3f`) and `_on_close`.
- The filesystem: `glob`, `os.makedirs`, `open`, and `csv.reader`'s quoting and line handling. A log is its list of records. `list_device_files` is the insertion-ordered dict passed to `pick_two`.
- Clocks, ISO timestamps and `datetime.fromisoformat`: a timestamp is an opaque string, or a parse function that may fail. The x-axis span is over whole seconds, not `total_seconds()` with microseconds.
- Floating point:
  - `/ 100.0` is kept as integer centi-degrees;
  - `float()` parsing is a function parameter;
  - Payload.BatteryPercent: the contract asserts no value at exact .5 ties. The body rounds half up, while Python's `round` on a float may give the other neighbour there: 2105 mV gives 0 in Python and 1 in the model.
- `print`.
- Non-ASCII case mapping in `.upper()`/`.lower()`: only ASCII letters change case. `os.path.join` is the POSIX version.
- Supervisor.DeviceTask: a header write that fails ends the task with the file unchanged. A partially written file is not modelled.
- Supervisor.Handler: a failed append adds nothing. A partial line left by a failed write is not modelled.
- Gui.App.RemoveStale and Gui.App.Place loop over a local copy of `panels` and assign it back at the end; the panel objects themselves are not shared.
- PanelData.ReadTail: `max_rows` is a natural number, so the ValueError that `deque` raises for a negative `maxlen` is not modelled. An error part-way through reading is modelled as the reader delivering fewer records, which `except Exception: pass` then returns.
- PanelData.ReadLast: an error part-way through reading returns None, as the code does. An empty file is decided by its size before any record is read.
