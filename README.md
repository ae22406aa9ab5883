# Thermopro TP357 monitor: acquisition and debounce pipeline in Dafny

This project models the data path of a desktop monitor for the Thermopro
TP357 Bluetooth thermometer, from the Bluetooth advertisement to the plotted
history:

- **Decoder** (`decoder.dfy`): the TP357 payload. The device puts the low
  byte of the temperature in the high byte of the manufacturer "company id".
  The first payload byte is the temperature's high byte and the second is
  the humidity. Only the first manufacturer-data entry is looked at.
- **Ascii** (`ascii.dfy`): the ASCII case-insensitive comparison of the
  peripheral's address with the configured target address.
- **Scanner** (`scanner.dfy`): one scan window is a loop over the event
  stream under a timeout. It filters events by address, decodes them and
  hands readings to the channel. The window ends early after the first
  reading in non-continuous mode, or when a send fails. The outer loop runs
  cycles: read the configuration, open the manager, take the first adapter,
  scan, then sleep. Scan, pause and retry lengths depend on the continuous
  mode.
- **Processor** (`processor.dfy`): the background worker. It keeps the time
  of the last accepted reading and suppresses readings that come less than
  the duplicate threshold (in whole seconds) after it. Each accepted reading
  produces a CSV write outcome followed by the reading. Status texts are
  forwarded unchanged. The worker exits when the GUI's receiver is gone.
- **History** (`history.dfy`): the GUI's bounded history (evict from the
  front, push at the back) and the dispatch of delivered messages to the
  history, the status text and the CSV flag. Also the choice of records
  loaded at startup.
- **Types** (`types.dfy`): the configuration and its defaults, the reading
  record, the channel message, and filters over message sequences.

Each loop of the source is a method proved equal to a specification
function: `Scanner.ScanEvents`, `Scanner.BluetoothScanner`,
`Processor.BackgroundDataProcessor`, the record loop
`History.LoadHistoryFromCsv` and the methods of `History.TempMonitorApp`.
The specifications of the loops over inputs (`Scanner.Window`,
`Scanner.RunCycles`, `Processor.Run`, `History.ApplyAll` and
`History.Parsed`) are left folds, so "the state after the first k inputs"
is the function applied to the first k inputs. The pop loop of
`AddDataPoint` is specified by `History.Evict`, which recurses on the
history's tail. The lemmas state the source's properties about these
functions.

Time, I/O and the Bluetooth stack are inputs:

- A scan cycle gets the shared configuration snapshot (`None` when the lock
  is poisoned), what the Bluetooth stack did, and whether the channel's
  receiver is alive.
- Each event carries the time since the scan started (in ticks) and the
  wall-clock time of its reading.
- The scanner's `sent` lists every message handed to `tx.send`, including
  sends that fail because the receiver is gone; the worker's `out` lists
  only the messages actually delivered to the GUI.
- Each message handled by the worker carries the monotonic clock (in
  nanosecond ticks), the configured threshold, the CSV write outcome and
  whether the GUI's receiver is alive.

Temperatures are integer tenths of a degree.

Three behaviours of the code are worth stating on their own:

- A failed send of a reading ends only the current scan window (`break`
  at src/main.rs:477; the `return` at src/main.rs:478 is inside the timed
  async block). The outer loop goes on.
- The worker drops inbound `CsvWriteStatus` messages. It produces its own
  write outcome for each accepted reading.
- The continuous-mode scan window is a fixed 60 seconds, not a setting.

## Model

| member | source | states |
|---|---|---|
| Decoder.Decode | src/main.rs:471-474 | A reading exists iff there is a first manufacturer entry with at least 2 bytes. Only that entry is used. The 16-bit pattern of the temperature is `(company_id >> 8) + 256 * data[0]`. Humidity is `data[1]`, unchecked (0..255). |
| Decoder.I16FromLeBytes | src/main.rs:473 | `i16::from_le_bytes([lo, hi])`: the result's two's-complement bit pattern is `lo + 256 * hi`. |
| Decoder.DecodeAdvertisement | src/main.rs:471-474 | Round trip: decoding what a thermometer broadcasts for temperature t and humidity h gives (t, h). This holds for any low company byte, any trailing bytes and any further entries. |
| Decoder.DecodedIsAdvertised | src/main.rs:471-474 | Converse: every successfully decoded entry list is exactly the broadcast of its decoded reading. |
| Decoder.DecodeNegativeExample | src/main.rs:473-474 | Company id 0x9c00 with payload [0xff, 255] decodes to -10.0 degrees and humidity 255. |
| Ascii.EqIgnoreAsciiCaseIffSameLowercase | src/main.rs:469 | The address comparison holds iff both strings are equal after ASCII lowercasing. This is proved in both directions. |
| Ascii.EqIgnoreAsciiCaseIsEquivalence | src/main.rs:469 | The address comparison is reflexive, symmetric and transitive. |
| Ascii.AddressCaseExamples | src/main.rs:469 | A lower-case spelling of the default target matches. An address differing in one digit, or one character shorter, does not. |
| Scanner.Examine | src/main.rs:466-475 | An event yields a reading iff it is a discovery or update, its properties were fetched, its address matches the target case-insensitively and its payload decodes. The reading carries the decoded values, the event's wall-clock time, the peripheral id, the signal strength and the first entry's raw bytes. |
| Scanner.ScanEvents | src/main.rs:462-486 | The event loop of one scan window returns exactly the readings of the window specification. |
| Scanner.WindowEndedIsFinal | src/main.rs:463-486 | Once the window has ended (timeout, failed send, or first reading outside continuous mode), later events change nothing. |
| Scanner.WindowHandlesBeforeDeadline | src/main.rs:462-465 | A window handles a prefix of the event stream, and only events that arrived before the scan deadline. |
| Scanner.WindowSendsReadingsOfHandled | src/main.rs:465-477 | A window sends exactly the readings of the events it handled, in order. |
| Scanner.ReadingsComeFromTarget | src/main.rs:469-475 | Every reading the events yield comes from an event whose address equals the target under ASCII case-insensitive comparison. |
| Scanner.SentReadingsComeFromTarget | src/main.rs:465-477 | Every reading a scan window hands to the channel comes from an event it handled whose address matches the target, ignoring ASCII case. |
| Scanner.AtMostOneReadingUnlessContinuous | src/main.rs:477-478 | Outside continuous mode, or when the channel is closed, a window sends at most one reading. That reading is from the first event that yields one, and the window ends with it. |
| Scanner.ContinuousWindowRunsToDeadline | src/main.rs:462-486 | In continuous mode with the channel open, the window handles every event before the first one at or after the deadline. It sends every reading among them. |
| Scanner.ContinuousEndsOnlyAtDeadline | src/main.rs:463-486 | In continuous mode with the channel open, only an event at or after the deadline ends the window. |
| Scanner.ScanCycle | src/main.rs:446-494 | One iteration of the outer loop hands the channel exactly the messages of the cycle specification and ends with its sleep: adapter error then retry after a manager failure; "waiting" then pause without an adapter; scan status, the window's readings, "waiting", then pause otherwise. |
| Scanner.BluetoothScanner | src/main.rs:445-495 | The outer loop over cycles sends exactly the messages and sleeps of the cycle specification. |
| Scanner.EveryCycleSleeps | src/main.rs:448-494 | The loop never stops on its own. Every cycle ends in one sleep: the retry length after a manager failure, otherwise the pause length, both from that cycle's configuration. |
| Scanner.CycleTiming | src/main.rs:453-492 | Continuous mode: a 60 s scan window, a 1 s pause and a 1 s retry. Otherwise: the scan timeout, then the scan pause for both the pause and the retry. |
| Scanner.ManagerFailuresOnlyReportErrors | src/main.rs:448-455 | When the manager fails in every cycle, the scanner sends one adapter-error status per cycle and never a reading. |
| Scanner.CycleSendsAtMostOneUnlessContinuous | src/main.rs:457-491 | A cycle outside continuous mode hands at most one reading to the channel. |
| Scanner.DefaultConfigTiming | src/main.rs:43-56 | The defaults (also used when the shared configuration's lock is poisoned) are continuous mode with target "B8:59:CE:33:0F:93", a stored 20 s scan timeout and 20 s pause, a 30 s threshold and all history kept; in effect a 60 s window and 1 s pause and retry. |
| Processor.ShouldSaveIffThresholdElapsed | src/main.rs:407-409 | Truncation to whole seconds is exact for the decision. A later reading is saved iff the threshold is 0 or at least threshold × 10^9 ticks have passed since the last save. |
| Processor.BackgroundDataProcessor | src/main.rs:399-428 | The worker loop delivers exactly the messages of the worker specification and ends with its last-save time. |
| Processor.StoppedIsFinal | src/main.rs:416-422 | Once the worker has exited, later messages change nothing. |
| Processor.StopsIffSendFails | src/main.rs:407-424 | The worker has exited exactly when a status text or an accepted reading was handed over after the GUI had gone; a suppressed reading never stops it. |
| Processor.ClockIsLastAccepted | src/main.rs:401-415 | The debounce clock is None iff no reading was accepted yet. Otherwise it is the time of the last accepted reading, whatever the write outcome. Suppressed readings never move it. |
| Processor.DebounceRule | src/main.rs:407-410 | The first reading is always accepted. A later one is accepted iff the whole seconds since the last accepted reading reach the threshold. |
| Processor.OutputIsWellPaired | src/main.rs:410-416 | Every delivered reading directly follows its write outcome, and every delivered write outcome is directly followed by its reading. |
| Processor.DeliveredAreAccepted | src/main.rs:407-424 | The readings the worker delivers are exactly the inbound readings the debounce rule accepts (while the GUI listens), in order; the delivered write outcomes are those readings' own CSV write outcomes, in the same order. |
| Processor.GuiAliveDeliversAllAccepted | src/main.rs:407-424 | With the GUI alive, the delivered readings are the accepted readings, and every accepted reading is delivered. |
| Processor.OneOutcomePerReading | src/main.rs:410-424 | The worker delivers exactly one write outcome per delivered reading. Inbound write outcomes are dropped. |
| Processor.StatusPassthrough | src/main.rs:421-424 | While the GUI is alive, the worker never exits and forwards every status text unchanged and in order. |
| Processor.ZeroThresholdForwardsAll | src/main.rs:407-416 | With a threshold of 0 and the GUI alive, every reading is accepted and forwarded, in order. |
| Processor.ReplayIsSuppressed | src/main.rs:407-419 | A reading handed over again with the clock unchanged is suppressed when the threshold is positive. |
| Processor.ThirtySecondExample | src/main.rs:407-419 | With a 30 s threshold and readings at 0, 10, 20, 35 and 60 s, only 0 s and 35 s are forwarded. |
| History.EvictKeepsNewest | src/main.rs:116 | The eviction loop leaves the newest `limit - 1` points (all points when there are fewer). |
| History.AddPointKeepsNewest | src/main.rs:113-120 | After adding a point, the history is the newest `limit` points of (old history + point). Its length is at most the limit and its last element is the new point. With all history kept, nothing is evicted. |
| History.TempMonitorApp.AddDataPoint | src/main.rs:113-120 | The pop loop and push leave the history as the specification says, set the last data point and change nothing else. |
| History.TempMonitorApp.DrainMessages | src/main.rs:136-141 | Draining a frame's messages moves the GUI state to the specification's fold over them. |
| History.HistoryIsNewestPoints | src/main.rs:113-141 | Without readings the history is untouched. Once a reading arrives, from any history, or from a history within the limit, the history is the newest points (up to the limit) of the old history followed by every delivered reading, in order. |
| History.HistoryStaysBounded | src/main.rs:115-118 | A history within its limit (200, or usize::MAX with all history kept) stays within it whatever the messages. |
| History.LatestStatusWins | src/main.rs:139 | After any messages, the status text is the newest status message, or unchanged when none arrived. |
| History.LatestWriteOutcomeWins | src/main.rs:140 | After any messages, the CSV flag is the newest write outcome, or unchanged when none arrived. |
| History.LatestDataPointWins | src/main.rs:119-138 | After any messages, the last data point is the newest delivered reading, or unchanged when none arrived. |
| History.RecordsToLoad | src/main.rs:370-375 | At startup, all records are used when all history is kept. Otherwise the last min(n, 200) records are used, in order. |
| History.Parsed | src/main.rs:376-385 | The loaded points are exactly the rows that parse; when every row parses, one point per row. |
| History.ParsedKeepsOrder | src/main.rs:376-385 | Parsing keeps the file's order: a concatenation gives the points of the first part followed by those of the second; a good row gives its point and a bad row nothing. |
| History.LoadHistory | src/main.rs:360-388 | The loaded points are exactly the parsable rows among all records, or among the last 200 records when not all history is kept; then at most 200 points are loaded. |
| History.LoadHistoryFromCsv | src/main.rs:370-385 | The record loop, pushing every row that parses, yields exactly the loaded history. |
| History.WindowBeforeParsing | src/main.rs:370-385 | The window is chosen before parsing: 200 good rows followed by one bad row load 199 points when history is limited, and 200 when all of it is kept. |
| History.TempMonitorApp.constructor | src/main.rs:82-110 | The application starts with the loaded history, no last data point, the CSV flag set and the initial status text. |

## Left out

- Rendering: the egui/eframe GUI, plots, zoom, clipboard toast and settings window (src/main.rs:124-348) are presentation only.
- Bluetooth stack: `Manager::new`, `adapters()`, `start_scan`/`stop_scan`, peripheral and property lookups and the event stream are foreign async calls. They are replaced by an outcome per cycle and a finite event list. The panic of `.unwrap()` on the event stream (src/main.rs:464) is not modelled.
- Timing: sleeps are returned as durations and not performed. The time the awaits inside the event loop take is folded into each event's arrival offset. An event arriving exactly at the deadline counts as past it.
- Concurrency: the mpsc channels, threads and the mutex-guarded shared configuration are modelled sequentially. The scanner's output, the worker's input and the GUI's input are separate message lists. No lemma chains them.
- Worker configuration: the panic of `lock().unwrap()` on a poisoned lock in the worker (src/main.rs:405) is not modelled. The threshold is an input per message.
- Floating point: temperatures are integer tenths. The `/ 10.0` division, the display min/max and range padding are left out. The two warning thresholds of `Config` are display only and are omitted.
- Files and formats: `log_to_csv` is out, and its outcome is an input per message. CSV parsing, chrono date formatting and the daily file name are out too; a startup row is a parsed point or a failure (but see History.LoadHistoryFromCsv below). `load_config`/`save_config` JSON is out.
- Manufacturer data is a hash map in the Bluetooth library, and "first entry" means first in its iteration order. The model takes the entries as a sequence in that order.
- Integer widths: configuration seconds are unbounded naturals (u64 in the source). No arithmetic on them can overflow in the source's use.
- build.rs holds only Windows icon embedding and no logic.
- Startup rows: a row is a record the CSV reader accepted. Records it rejects are dropped at src/main.rs:368, before the window is chosen, and are not part of the input. A missing file gives no rows.
- History.LoadHistory: its own contract states which points are loaded, not their order. The order is stated by History.ParsedKeepsOrder about the function it applies.
- History.LoadHistoryFromCsv: a row whose date parses but names a local time that is ambiguous or does not exist (the hour repeated or skipped at a daylight-saving change) panics at `and_local_timezone(Local).unwrap()` (src/main.rs:381), so the application does not start. The model has no such outcome; each row is either a parsed point (`Some`) or a failure (`None`), because time-zone resolution is out of scope.
