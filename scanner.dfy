/**
 * The Bluetooth scan loop. Each cycle reads the configuration once, tries
 * to open the Bluetooth manager, takes the first adapter, scans for a time
 * window while filtering advertisement events, and then sleeps. The async
 * Bluetooth stack is replaced by an abstract outcome per cycle: either a
 * failure at one of the steps, or the finite list of events that the scan
 * delivered.
 */
module Scanner {
  import opened Types
  import opened Ascii
  import opened Decoder

  datatype EventKind = DeviceDiscovered | DeviceUpdated | OtherEvent

  /** The advertised properties of a peripheral. */
  datatype Properties = Properties(address: string, manufacturerData: seq<ManufacturerEntry>, rssi: Option<i16>)

  /**
   * One event of the central's event stream. `props` is None when the
   * peripheral or its properties could not be fetched. `offset` is the time
   * in ticks since the scan started at which the event is handled, `stamp`
   * the local wall-clock time (seconds) of that moment.
   */
  datatype Event = Event(kind: EventKind, id: string, props: Option<Properties>, offset: nat, stamp: int)

  /** Length of the scan window in seconds. */
  function ScanSeconds(c: Config): nat {
    if c.continuousMode then 60 else c.scanTimeoutSecs
  }

  /** The sleep after a scan, in seconds. */
  function PauseSeconds(c: Config): nat {
    if c.continuousMode then 1 else c.scanPauseSecs
  }

  /** The sleep after the Bluetooth manager could not be opened, in seconds. */
  function RetrySeconds(c: Config): nat {
    if c.continuousMode then 1 else c.scanPauseSecs
  }

  function Deadline(c: Config): nat {
    ScanSeconds(c) * TicksPerSecond
  }

  function ScanStatus(c: Config): string {
    if c.continuousMode then StatusScanningContinuous else StatusScanning
  }

  /** The reading one event yields, if any. */
  function Examine(e: Event, target: string): (r: Option<DataPoint>)
    ensures r.Some? <==>
      && e.kind != OtherEvent
      && e.props.Some?
      && EqIgnoreAsciiCase(e.props.value.address, target)
      && Decode(e.props.value.manufacturerData).Some?
    ensures r.Some? ==>
      && r.value.timestamp == e.stamp
      && r.value.deviceId == e.id
      && r.value.rssi == e.props.value.rssi
      && r.value.rawData == e.props.value.manufacturerData[0].data
      && Decode(e.props.value.manufacturerData) == Some(Reading(r.value.tempTenths, r.value.hum))
  {
    if e.kind == OtherEvent || e.props.None? then None
    else
      var props := e.props.value;
      if !EqIgnoreAsciiCase(props.address, target) then None
      else match Decode(props.manufacturerData)
        case None => None
        case Some(reading) =>
          Some(DataPoint(e.stamp, reading.tempTenths, reading.humidity, e.id, props.rssi,
                         props.manufacturerData[0].data))
  }

  /** The readings a list of events yields when every event is examined. */
  function Readings(events: seq<Event>, target: string): seq<DataPoint>
    decreases |events|
  {
    if events == [] then []
    else
      var r := Examine(events[|events| - 1], target);
      Readings(events[..|events| - 1], target) + (if r.Some? then [r.value] else [])
  }

  /**
   * The state of one scan window: the readings handed to the channel, the
   * number of events handled, and whether the window has ended (timeout,
   * a failed send, or the first reading in non-continuous mode).
   */
  datatype ScanWindow = ScanWindow(sent: seq<DataPoint>, handled: nat, ended: bool)

  function WindowStep(w: ScanWindow, e: Event, c: Config, linkOpen: bool): ScanWindow {
    if e.offset >= Deadline(c) then w.(ended := true)
    else match Examine(e, c.targetMac)
      case None => w.(handled := w.handled + 1)
      case Some(p) => ScanWindow(w.sent + [p], w.handled + 1, !linkOpen || !c.continuousMode)
  }

  /** The scan window over the events of the stream, in arrival order. */
  function Window(events: seq<Event>, c: Config, linkOpen: bool): ScanWindow
    decreases |events|
  {
    if events == [] then ScanWindow([], 0, false)
    else
      var w := Window(events[..|events| - 1], c, linkOpen);
      if w.ended then w else WindowStep(w, events[|events| - 1], c, linkOpen)
  }

  /** Once the window has ended, later events change nothing. */
  lemma {:induction false} WindowEndedIsFinal(events: seq<Event>, k: nat, c: Config, linkOpen: bool)
    requires k <= |events|
    requires Window(events[..k], c, linkOpen).ended
    ensures Window(events, c, linkOpen) == Window(events[..k], c, linkOpen)
    decreases |events| - k
  {
    if k < |events| {
      var e := events[..k + 1];
      assert e[..k] == events[..k];
      assert Window(e, c, linkOpen) == Window(events[..k], c, linkOpen);
      WindowEndedIsFinal(events, k + 1, c, linkOpen);
    } else {
      assert events[..k] == events;
    }
  }

  /**
   * The event loop of one scan window: the `while let` over the event stream
   * under the scan timeout. Returns the readings handed to the channel.
   */
  method ScanEvents(events: seq<Event>, c: Config, linkOpen: bool) returns (sent: seq<DataPoint>)
    ensures sent == Window(events, c, linkOpen).sent
  {
    sent := [];
    var i := 0;
    while i < |events|
      invariant 0 <= i <= |events|
      invariant Window(events[..i], c, linkOpen) == ScanWindow(sent, i, false)
    {
      var event := events[i];
      assert events[..i + 1][..i] == events[..i];
      if event.offset >= Deadline(c) {
        // the timeout fires
        WindowEndedIsFinal(events, i + 1, c, linkOpen);
        return;
      }
      var found := Examine(event, c.targetMac);
      if found.Some? {
        sent := sent + [found.value];
        if !linkOpen {
          // the send failed: leave the event loop
          WindowEndedIsFinal(events, i + 1, c, linkOpen);
          return;
        }
        if !c.continuousMode {
          WindowEndedIsFinal(events, i + 1, c, linkOpen);
          return;
        }
      }
      i := i + 1;
    }
    assert events[..i] == events;
  }

  /** A window handles a prefix of the stream, and only events that arrived before the deadline. */
  lemma {:induction false} WindowHandlesBeforeDeadline(events: seq<Event>, c: Config, linkOpen: bool)
    ensures Window(events, c, linkOpen).handled <= |events|
    ensures forall i :: 0 <= i < Window(events, c, linkOpen).handled ==> events[i].offset < Deadline(c)
    decreases |events|
  {
    if events != [] {
      var n := |events| - 1;
      var prev := events[..n];
      WindowHandlesBeforeDeadline(prev, c, linkOpen);
      WindowHandledAllUnlessEnded(prev, c, linkOpen);
      var w := Window(prev, c, linkOpen);
      forall i | 0 <= i < w.handled ensures events[i] == prev[i] { }
    }
  }

  /** What a window sends is exactly the readings of the events it handled, in order. */
  lemma {:induction false} WindowSendsReadingsOfHandled(events: seq<Event>, c: Config, linkOpen: bool)
    ensures Window(events, c, linkOpen).handled <= |events|
    ensures Window(events, c, linkOpen).sent == Readings(events[..Window(events, c, linkOpen).handled], c.targetMac)
    decreases |events|
  {
    WindowHandlesBeforeDeadline(events, c, linkOpen);
    if events != [] {
      var n := |events| - 1;
      var prev := events[..n];
      WindowSendsReadingsOfHandled(prev, c, linkOpen);
      var w := Window(prev, c, linkOpen);
      assert prev[..w.handled] == events[..w.handled];
      if !w.ended && events[n].offset < Deadline(c) {
        WindowHandledAllUnlessEnded(prev, c, linkOpen);
        assert w.handled == n;
        assert events[..n + 1] == events;
        assert events[..n + 1][..n] == prev;
      }
    }
  }

  /** A window that has not ended has handled every event. */
  lemma {:induction false} WindowHandledAllUnlessEnded(events: seq<Event>, c: Config, linkOpen: bool)
    ensures !Window(events, c, linkOpen).ended ==> Window(events, c, linkOpen).handled == |events|
    decreases |events|
  {
    if events != [] {
      WindowHandledAllUnlessEnded(events[..|events| - 1], c, linkOpen);
    }
  }

  /** Only events from the target address, with a decodable payload, yield a reading. */
  lemma {:induction false} ReadingsComeFromTarget(events: seq<Event>, target: string, p: DataPoint)
    requires p in Readings(events, target)
    ensures exists i :: (0 <= i < |events| && Examine(events[i], target) == Some(p) &&
      events[i].props.Some? && EqIgnoreAsciiCase(events[i].props.value.address, target))
    decreases |events|
  {
    var n := |events| - 1;
    var prev := events[..n];
    if p in Readings(prev, target) {
      ReadingsComeFromTarget(prev, target, p);
      var i :| 0 <= i < |prev| && Examine(prev[i], target) == Some(p)
        && prev[i].props.Some? && EqIgnoreAsciiCase(prev[i].props.value.address, target);
      assert events[i] == prev[i];
    } else {
      assert Examine(events[n], target) == Some(p);
    }
  }

  /**
   * Every reading a window hands to the channel comes from an event it
   * handled whose address matches the target, ignoring ASCII case.
   */
  lemma SentReadingsComeFromTarget(events: seq<Event>, c: Config, linkOpen: bool, p: DataPoint)
    requires p in Window(events, c, linkOpen).sent
    ensures exists i :: (0 <= i < Window(events, c, linkOpen).handled && i < |events| && Examine(events[i], c.targetMac) == Some(p) &&
      events[i].props.Some? && EqIgnoreAsciiCase(events[i].props.value.address, c.targetMac))
  {
    var h := Window(events, c, linkOpen).handled;
    WindowSendsReadingsOfHandled(events, c, linkOpen);
    var handled := events[..h];
    ReadingsComeFromTarget(handled, c.targetMac, p);
    var i :| 0 <= i < |handled| && Examine(handled[i], c.targetMac) == Some(p) &&
      handled[i].props.Some? && EqIgnoreAsciiCase(handled[i].props.value.address, c.targetMac);
    assert handled[i] == events[i];
  }

  /**
   * In non-continuous mode, and whenever the channel is closed, a window
   * hands at most one reading to the channel; that reading ends the window
   * at the first event that yields one.
   */
  lemma {:induction false} AtMostOneReadingUnlessContinuous(events: seq<Event>, c: Config, linkOpen: bool)
    requires !c.continuousMode || !linkOpen
    ensures |Window(events, c, linkOpen).sent| <= 1
    ensures |Window(events, c, linkOpen).sent| == 1 ==>
      var w := Window(events, c, linkOpen);
      && w.ended && 1 <= w.handled <= |events|
      && Readings(events[..w.handled - 1], c.targetMac) == []
      && Examine(events[w.handled - 1], c.targetMac) == Some(w.sent[0])
    decreases |events|
  {
    if events != [] {
      var n := |events| - 1;
      var prev := events[..n];
      AtMostOneReadingUnlessContinuous(prev, c, linkOpen);
      var w := Window(prev, c, linkOpen);
      var w' := Window(events, c, linkOpen);
      if w.ended {
        assert w' == w;
        if |w.sent| == 1 {
          assert prev[..w.handled - 1] == events[..w.handled - 1];
          assert prev[w.handled - 1] == events[w.handled - 1];
        }
      } else {
        assert |w.sent| == 0;
        assert w' == WindowStep(w, events[n], c, linkOpen);
        if |w'.sent| == 1 {
          WindowSendsReadingsOfHandled(prev, c, linkOpen);
          WindowHandledAllUnlessEnded(prev, c, linkOpen);
          assert w.handled == n;
          assert prev[..n] == prev;
          assert Readings(prev, c.targetMac) == [];
          assert w'.handled == n + 1;
          assert events[..n] == prev;
        }
      }
    }
  }

  /**
   * In continuous mode with the channel open, the window runs to the
   * deadline: it handles every event that arrives before the first event at
   * or after the deadline and sends every reading among them.
   */
  lemma {:induction false} ContinuousWindowRunsToDeadline(events: seq<Event>, c: Config)
    requires c.continuousMode
    ensures
      var w := Window(events, c, true);
      && w.handled <= |events|
      && (w.handled < |events| ==> events[w.handled].offset >= Deadline(c))
      && w.sent == Readings(events[..w.handled], c.targetMac)
    decreases |events|
  {
    WindowSendsReadingsOfHandled(events, c, true);
    if events != [] {
      var n := |events| - 1;
      var prev := events[..n];
      ContinuousWindowRunsToDeadline(prev, c);
      WindowHandledAllUnlessEnded(prev, c, true);
      var w := Window(prev, c, true);
      if w.ended {
        assert w.handled < n ==> events[w.handled] == prev[w.handled];
        ContinuousEndsOnlyAtDeadline(prev, c);
      }
    }
  }

  /** In continuous mode with the channel open, only the timeout ends a window. */
  lemma {:induction false} ContinuousEndsOnlyAtDeadline(events: seq<Event>, c: Config)
    requires c.continuousMode
    ensures Window(events, c, true).ended ==>
      Window(events, c, true).handled < |events| &&
      events[Window(events, c, true).handled].offset >= Deadline(c)
    decreases |events|
  {
    if events != [] {
      var n := |events| - 1;
      var prev := events[..n];
      ContinuousEndsOnlyAtDeadline(prev, c);
      WindowHandledAllUnlessEnded(prev, c, true);
      var w := Window(prev, c, true);
      if w.ended {
        assert events[w.handled] == prev[w.handled];
      }
    }
  }

  /** What one cycle found after reading the configuration. */
  datatype AdapterOutcome =
    | ManagerFailed               // Manager::new failed
    | NoAdapter                   // no adapter enumerated (or enumeration failed)
    | ScanStartFailed             // start_scan failed
    | Scanned(events: seq<Event>) // the event stream of the scan window

  /**
   * The inputs of one cycle: the shared configuration (None when its lock is
   * poisoned), what the Bluetooth stack did, and whether the receiving end
   * of the channel is still alive.
   */
  datatype CycleInput = CycleInput(shared: Option<Config>, outcome: AdapterOutcome, linkOpen: bool)

  /** The messages one cycle hands to the channel, and the sleep that ends it. */
  datatype CycleOutput = CycleOutput(sent: seq<Message>, sleepSecs: nat)

  /** The configuration of a cycle: the shared one, or the default when the lock is poisoned. */
  function ReadConfig(shared: Option<Config>): Config {
    if shared.Some? then shared.value else DefaultConfig()
  }

  function AsMessages(points: seq<DataPoint>): (ms: seq<Message>)
    ensures |ms| == |points|
    ensures forall i :: 0 <= i < |points| ==> ms[i] == NewData(points[i])
  {
    seq(|points|, i requires 0 <= i < |points| => NewData(points[i]))
  }

  function Cycle(x: CycleInput): CycleOutput {
    var c := ReadConfig(x.shared);
    match x.outcome
    case ManagerFailed => CycleOutput([StatusUpdate(StatusAdapterError)], RetrySeconds(c))
    case NoAdapter => CycleOutput([StatusUpdate(StatusWaiting)], PauseSeconds(c))
    case ScanStartFailed => CycleOutput([StatusUpdate(ScanStatus(c)), StatusUpdate(StatusWaiting)], PauseSeconds(c))
    case Scanned(events) =>
      var w := Window(events, c, x.linkOpen);
      CycleOutput([StatusUpdate(ScanStatus(c))] + AsMessages(w.sent) + [StatusUpdate(StatusWaiting)],
                  PauseSeconds(c))
  }

  /** All that a sequence of cycles hands to the channel, and the sleeps between them. */
  datatype Trace = Trace(sent: seq<Message>, sleeps: seq<nat>)

  function RunCycles(xs: seq<CycleInput>): Trace
    decreases |xs|
  {
    if xs == [] then Trace([], [])
    else
      var t := RunCycles(xs[..|xs| - 1]);
      var o := Cycle(xs[|xs| - 1]);
      Trace(t.sent + o.sent, t.sleeps + [o.sleepSecs])
  }

  /** One iteration of the scanner's outer loop: the messages it hands to the channel and its sleep. */
  method ScanCycle(x: CycleInput) returns (sent: seq<Message>, sleepSecs: nat)
    ensures CycleOutput(sent, sleepSecs) == Cycle(x)
  {
    var c := ReadConfig(x.shared);
    match x.outcome {
      case ManagerFailed =>
        sent := [StatusUpdate(StatusAdapterError)];
        sleepSecs := RetrySeconds(c);
      case NoAdapter =>
        sent := [StatusUpdate(StatusWaiting)];
        sleepSecs := PauseSeconds(c);
      case ScanStartFailed =>
        sent := [StatusUpdate(ScanStatus(c))];
        sent := sent + [StatusUpdate(StatusWaiting)];
        sleepSecs := PauseSeconds(c);
      case Scanned(events) =>
        sent := [StatusUpdate(ScanStatus(c))];
        var points := ScanEvents(events, c, x.linkOpen);
        sent := sent + AsMessages(points);
        sent := sent + [StatusUpdate(StatusWaiting)];
        sleepSecs := PauseSeconds(c);
    }
  }

  /** The outer loop of the scanner, run for the given cycles. */
  method BluetoothScanner(xs: seq<CycleInput>) returns (sent: seq<Message>, sleeps: seq<nat>)
    ensures Trace(sent, sleeps) == RunCycles(xs)
  {
    sent, sleeps := [], [];
    for k := 0 to |xs|
      invariant Trace(sent, sleeps) == RunCycles(xs[..k])
    {
      assert xs[..k + 1][..k] == xs[..k];
      var cycleSent, sleepSecs := ScanCycle(xs[k]);
      sent := sent + cycleSent;
      sleeps := sleeps + [sleepSecs];
    }
    assert xs[..|xs|] == xs;
  }

  /**
   * The loop never stops on its own: every cycle ends with one sleep, of
   * the retry length after a manager failure and of the pause length
   * otherwise, taken from that cycle's own configuration.
   */
  lemma {:induction false} EveryCycleSleeps(xs: seq<CycleInput>)
    ensures |RunCycles(xs).sleeps| == |xs|
    ensures forall i :: 0 <= i < |xs| ==>
      RunCycles(xs).sleeps[i] ==
        if xs[i].outcome.ManagerFailed? then RetrySeconds(ReadConfig(xs[i].shared))
        else PauseSeconds(ReadConfig(xs[i].shared))
    decreases |xs|
  {
    if xs != [] {
      var prev := xs[..|xs| - 1];
      EveryCycleSleeps(prev);
      forall i | 0 <= i < |prev| ensures xs[i] == prev[i] { }
    }
  }

  /** In continuous mode the pause and the retry are one second and the scan a fixed minute. */
  lemma CycleTiming(c: Config)
    ensures c.continuousMode ==> Deadline(c) == 60 * TicksPerSecond && PauseSeconds(c) == 1 && RetrySeconds(c) == 1
    ensures !c.continuousMode ==>
      Deadline(c) == c.scanTimeoutSecs * TicksPerSecond && PauseSeconds(c) == c.scanPauseSecs && RetrySeconds(c) == c.scanPauseSecs
  {
  }

  /**
   * With the default configuration (also used when the shared one cannot be
   * read) the scanner runs in continuous mode: one-minute scans, one-second
   * pauses and retries, and the default target address. The stored 20 s
   * timeout and pause only matter once continuous mode is switched off.
   */
  lemma DefaultConfigTiming()
    ensures ReadConfig(None) == DefaultConfig()
    ensures DefaultConfig().continuousMode
    ensures DefaultConfig().targetMac == "B8:59:CE:33:0F:93"
    ensures DefaultConfig().scanTimeoutSecs == 20 && DefaultConfig().scanPauseSecs == 20
    ensures Deadline(DefaultConfig()) == 60 * TicksPerSecond
    ensures PauseSeconds(DefaultConfig()) == 1 && RetrySeconds(DefaultConfig()) == 1
    ensures DefaultConfig().duplicateThresholdSecs == 30 && DefaultConfig().loadAllHistory
    ensures EqIgnoreAsciiCase(DefaultConfig().targetMac, "b8:59:ce:33:0f:93")
  {
    AddressCaseExamples();
    EqIgnoreAsciiCaseIsEquivalence("b8:59:ce:33:0f:93", DefaultConfig().targetMac, DefaultConfig().targetMac);
  }

  /**
   * When the Bluetooth manager keeps failing, the scanner only reports the
   * adapter error, once per cycle, and never sends a reading.
   */
  lemma {:induction false} ManagerFailuresOnlyReportErrors(xs: seq<CycleInput>)
    requires forall i :: 0 <= i < |xs| ==> xs[i].outcome.ManagerFailed?
    ensures RunCycles(xs).sent == seq(|xs|, _ => StatusUpdate(StatusAdapterError))
    ensures DataPoints(RunCycles(xs).sent) == []
    decreases |xs|
  {
    if xs != [] {
      var prev := xs[..|xs| - 1];
      ManagerFailuresOnlyReportErrors(prev);
      FiltersAppend(RunCycles(prev).sent, [StatusUpdate(StatusAdapterError)]);
      assert DataPoints([StatusUpdate(StatusAdapterError)]) == [];
    }
  }

  /** A cycle outside continuous mode sends at most one reading. */
  lemma CycleSendsAtMostOneUnlessContinuous(x: CycleInput)
    requires !ReadConfig(x.shared).continuousMode
    ensures |DataPoints(Cycle(x).sent)| <= 1
  {
    var c := ReadConfig(x.shared);
    match x.outcome
    case Scanned(events) =>
      var w := Window(events, c, x.linkOpen);
      AtMostOneReadingUnlessContinuous(events, c, x.linkOpen);
      AsMessagesData(w.sent);
      FiltersAppend([StatusUpdate(ScanStatus(c))], AsMessages(w.sent));
      FiltersAppend([StatusUpdate(ScanStatus(c))] + AsMessages(w.sent), [StatusUpdate(StatusWaiting)]);
      assert DataPoints([StatusUpdate(ScanStatus(c))]) == [];
      assert DataPoints([StatusUpdate(StatusWaiting)]) == [];
    case ManagerFailed =>
      assert DataPoints([StatusUpdate(StatusAdapterError)]) == [];
    case NoAdapter =>
      assert DataPoints([StatusUpdate(StatusWaiting)]) == [];
    case ScanStartFailed =>
      var ms := [StatusUpdate(ScanStatus(c)), StatusUpdate(StatusWaiting)];
      assert ms[..1] == [StatusUpdate(ScanStatus(c))];
      assert DataPoints(ms[..1]) == [];
      assert DataPoints(ms) == [];
  }

  lemma {:induction false} AsMessagesData(points: seq<DataPoint>)
    ensures DataPoints(AsMessages(points)) == points
    decreases |points|
  {
    if points != [] {
      var n := |points| - 1;
      AsMessagesData(points[..n]);
      assert AsMessages(points)[..n] == AsMessages(points[..n]);
    }
  }
}
