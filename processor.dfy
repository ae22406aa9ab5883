/**
 * The background data processor: a sequential worker between the scanner
 * and the GUI. It keeps the time of the last accepted reading, drops
 * readings that arrive less than the duplicate threshold after it, logs
 * and forwards the others, and forwards status texts unchanged.
 *
 * The monotonic clock, the configuration read, the CSV write and the
 * liveness of the GUI's receiver are inputs supplied with each message.
 */
module Processor {
  import opened Types

  /**
   * One inbound message with what the worker observes while handling it:
   * the clock (ticks), the configured threshold (seconds), the outcome of
   * the CSV write, and whether the GUI's receiver is still alive.
   */
  datatype Inbound = Inbound(msg: Message, now: int, thresholdSecs: nat, writeOk: bool, guiOpen: bool)

  /** `now.duration_since(last).as_secs()`: whole seconds, zero when the clock did not advance. */
  function ElapsedSecs(last: int, now: int): nat {
    if now <= last then 0 else (now - last) / TicksPerSecond
  }

  /** Whether a reading handled at `now` is saved. */
  function ShouldSave(lastSave: Option<int>, now: int, thresholdSecs: nat): bool {
    lastSave.None? || ElapsedSecs(lastSave.value, now) >= thresholdSecs
  }

  /**
   * Truncating to whole seconds loses nothing for the decision: a reading is
   * saved exactly when at least `thresholdSecs` full seconds of clock time
   * have passed since the last save.
   */
  lemma ShouldSaveIffThresholdElapsed(last: int, now: int, thresholdSecs: nat)
    ensures ShouldSave(Some(last), now, thresholdSecs) <==>
      (thresholdSecs == 0 || now - last >= thresholdSecs * TicksPerSecond)
  {
    if now > last && thresholdSecs > 0 {
      var d := now - last;
      var q := d / TicksPerSecond;
      assert q * TicksPerSecond <= d < (q + 1) * TicksPerSecond;
      if q >= thresholdSecs {
        MulMonotone(thresholdSecs, q, TicksPerSecond);
      } else {
        MulMonotone(q + 1, thresholdSecs, TicksPerSecond);
      }
    } else if thresholdSecs > 0 {
      MulMonotone(1, thresholdSecs, TicksPerSecond);
    }
  }

  lemma MulMonotone(a: nat, b: nat, k: nat)
    requires a <= b
    ensures a * k <= b * k
  {
  }

  /** The worker's state: last save time, messages delivered to the GUI, and whether it has exited. */
  datatype Worker = Worker(lastSave: Option<int>, out: seq<Message>, stopped: bool)

  const Start: Worker := Worker(None, [], false)

  /** Handling of one inbound message. */
  function Step(w: Worker, x: Inbound): Worker {
    match x.msg
    case NewData(p) =>
      if ShouldSave(w.lastSave, x.now, x.thresholdSecs) then
        // both sends fail once the GUI's receiver is gone; only the second one stops the worker
        var sent := if x.guiOpen then [CsvWriteStatus(x.writeOk), NewData(p)] else [];
        Worker(Some(x.now), w.out + sent, !x.guiOpen)
      else w
    case StatusUpdate(s) =>
      if x.guiOpen then w.(out := w.out + [StatusUpdate(s)]) else w.(stopped := true)
    case CsvWriteStatus(_) => w
  }

  /** The worker after the given inbound messages, in order; it handles nothing once stopped. */
  function Run(xs: seq<Inbound>): Worker
    decreases |xs|
  {
    if xs == [] then Start
    else
      var w := Run(xs[..|xs| - 1]);
      if w.stopped then w else Step(w, xs[|xs| - 1])
  }

  /** `background_data_processor` over the given inbound messages. */
  method BackgroundDataProcessor(inbox: seq<Inbound>) returns (out: seq<Message>, lastSaveTime: Option<int>)
    ensures out == Run(inbox).out && lastSaveTime == Run(inbox).lastSave
  {
    lastSaveTime := None;
    out := [];
    var i := 0;
    while i < |inbox|
      invariant 0 <= i <= |inbox|
      invariant Run(inbox[..i]) == Worker(lastSaveTime, out, false)
    {
      var received := inbox[i];
      assert inbox[..i + 1][..i] == inbox[..i];
      match received.msg {
        case NewData(point) =>
          var shouldSave := lastSaveTime.None? || ElapsedSecs(lastSaveTime.value, received.now) >= received.thresholdSecs;
          if shouldSave {
            var writeOk := received.writeOk;
            if received.guiOpen {
              out := out + [CsvWriteStatus(writeOk)];
            }
            lastSaveTime := Some(received.now);
            if received.guiOpen {
              out := out + [NewData(point)];
            } else {
              StoppedIsFinal(inbox, i + 1);
              return;
            }
          }
        case StatusUpdate(status) =>
          if received.guiOpen {
            out := out + [StatusUpdate(status)];
          } else {
            StoppedIsFinal(inbox, i + 1);
            return;
          }
        case CsvWriteStatus(_) =>
      }
      i := i + 1;
    }
    assert inbox[..i] == inbox;
  }

  /** Once the worker has exited, later messages change nothing. */
  lemma {:induction false} StoppedIsFinal(xs: seq<Inbound>, k: nat)
    requires k <= |xs|
    requires Run(xs[..k]).stopped
    ensures Run(xs) == Run(xs[..k])
    decreases |xs| - k
  {
    if k < |xs| {
      assert xs[..k + 1][..k] == xs[..k];
      StoppedIsFinal(xs, k + 1);
    } else {
      assert xs[..k] == xs;
    }
  }

  /** The k-th inbound message is a reading that the worker accepts. */
  predicate Accepted(xs: seq<Inbound>, k: nat) {
    && k < |xs|
    && xs[k].msg.NewData?
    && !Run(xs[..k]).stopped
    && ShouldSave(Run(xs[..k]).lastSave, xs[k].now, xs[k].thresholdSecs)
  }

  lemma RunPrefixStep(xs: seq<Inbound>, k: nat)
    requires k < |xs|
    ensures Run(xs[..k + 1]) == if Run(xs[..k]).stopped then Run(xs[..k]) else Step(Run(xs[..k]), xs[k])
  {
    assert xs[..k + 1][..k] == xs[..k];
  }

  /**
   * The j-th inbound message is handed to the GUI after it has gone: a
   * status text, or a reading the debounce rule accepts. A suppressed
   * reading sends nothing, so it cannot fail.
   */
  predicate SendFails(xs: seq<Inbound>, j: nat) {
    && j < |xs|
    && !xs[j].guiOpen
    && ((xs[j].msg.StatusUpdate? && !Run(xs[..j]).stopped) || Accepted(xs, j))
  }

  /** The worker has exited after k messages exactly when one of them was a failed send. */
  lemma {:induction false} StopsIffSendFails(xs: seq<Inbound>, k: nat)
    requires k <= |xs|
    ensures Run(xs[..k]).stopped <==> exists j :: 0 <= j < k && SendFails(xs, j)
    decreases k
  {
    if k == 0 {
      assert xs[..0] == [];
    } else {
      StopsIffSendFails(xs, k - 1);
      RunPrefixStep(xs, k - 1);
      if SendFails(xs, k - 1) {
        assert Run(xs[..k]).stopped;
      } else if Run(xs[..k - 1]).stopped {
        var j :| 0 <= j < k - 1 && SendFails(xs, j);
        assert 0 <= j < k && SendFails(xs, j);
      } else {
        assert !Run(xs[..k]).stopped;
        forall j | 0 <= j < k ensures !SendFails(xs, j) {
          if j < k - 1 {
            assert !(0 <= j < k - 1 && SendFails(xs, j));
          }
        }
      }
    }
  }

  /**
   * The debounce clock is the time of the last ACCEPTED reading: it is None
   * exactly when nothing was accepted yet, and suppressed readings never
   * move it.
   */
  lemma {:induction false} ClockIsLastAccepted(xs: seq<Inbound>, k: nat)
    requires k <= |xs|
    ensures Run(xs[..k]).lastSave.None? <==> forall j :: 0 <= j < k ==> !Accepted(xs, j)
    ensures Run(xs[..k]).lastSave.Some? ==>
      exists j :: 0 <= j < k && Accepted(xs, j) && xs[j].now == Run(xs[..k]).lastSave.value &&
        forall j' :: j < j' < k ==> !Accepted(xs, j')
    decreases k
  {
    if k > 0 {
      ClockIsLastAccepted(xs, k - 1);
      RunPrefixStep(xs, k - 1);
      var w := Run(xs[..k - 1]);
      if Accepted(xs, k - 1) {
        assert Run(xs[..k]).lastSave == Some(xs[k - 1].now);
      } else {
        assert Run(xs[..k]).lastSave == w.lastSave;
        if w.lastSave.Some? {
          var j :| 0 <= j < k - 1 && Accepted(xs, j) && xs[j].now == w.lastSave.value &&
            forall j' :: j < j' < k - 1 ==> !Accepted(xs, j');
          assert forall j' :: j < j' < k ==> !Accepted(xs, j');
        } else {
          assert forall j :: 0 <= j < k ==> !Accepted(xs, j);
        }
      }
    }
  }

  /**
   * The debounce rule. The first reading is always accepted, and a later
   * reading is accepted exactly when the whole seconds elapsed since the
   * last accepted reading reach the threshold.
   */
  lemma DebounceRule(xs: seq<Inbound>, k: nat)
    requires k < |xs| && xs[k].msg.NewData? && !Run(xs[..k]).stopped
    ensures (forall j :: 0 <= j < k ==> !Accepted(xs, j)) ==> Accepted(xs, k)
    ensures forall j :: 0 <= j < k && Accepted(xs, j) && (forall j' :: j < j' < k ==> !Accepted(xs, j')) ==>
      (Accepted(xs, k) <==> ElapsedSecs(xs[j].now, xs[k].now) >= xs[k].thresholdSecs)
  {
    ClockIsLastAccepted(xs, k);
    forall j | 0 <= j < k && Accepted(xs, j) && (forall j' :: j < j' < k ==> !Accepted(xs, j'))
      ensures Accepted(xs, k) <==> ElapsedSecs(xs[j].now, xs[k].now) >= xs[k].thresholdSecs
    {
      var t := Run(xs[..k]).lastSave;
      assert t.Some?;
      var j0 :| 0 <= j0 < k && Accepted(xs, j0) && xs[j0].now == t.value &&
        forall j' :: j0 < j' < k ==> !Accepted(xs, j');
      assert j0 == j;
    }
  }

  /**
   * The points of the first k inbound messages that are accepted readings
   * handled while the GUI was still listening, in order.
   */
  function AcceptedPoints(xs: seq<Inbound>, k: nat): seq<DataPoint>
    requires k <= |xs|
  {
    if k == 0 then []
    else AcceptedPoints(xs, k - 1) + (if Accepted(xs, k - 1) && xs[k - 1].guiOpen then [xs[k - 1].msg.point] else [])
  }

  /** The write outcomes of those same accepted readings, in order. */
  function AcceptedOutcomes(xs: seq<Inbound>, k: nat): seq<bool>
    requires k <= |xs|
  {
    if k == 0 then []
    else AcceptedOutcomes(xs, k - 1) + (if Accepted(xs, k - 1) && xs[k - 1].guiOpen then [xs[k - 1].writeOk] else [])
  }

  lemma PairFilters(ok: bool, p: DataPoint)
    ensures DataPoints([CsvWriteStatus(ok), NewData(p)]) == [p]
    ensures WriteOutcomes([CsvWriteStatus(ok), NewData(p)]) == [ok]
  {
    var sent := [CsvWriteStatus(ok), NewData(p)];
    assert sent[..1] == [CsvWriteStatus(ok)];
    assert DataPoints(sent[..1]) == [] && WriteOutcomes(sent[..1]) == [ok];
  }

  /**
   * What the worker delivers is what the debounce rule accepts: the readings
   * it forwards are exactly the accepted inbound readings, in order, and each
   * delivered write outcome is the outcome of logging that same reading.
   * (An accepted reading whose send fails stops the worker; see GuiAlive.)
   */
  lemma {:induction false} DeliveredAreAccepted(xs: seq<Inbound>, k: nat)
    requires k <= |xs|
    ensures DataPoints(Run(xs[..k]).out) == AcceptedPoints(xs, k)
    ensures WriteOutcomes(Run(xs[..k]).out) == AcceptedOutcomes(xs, k)
    decreases k
  {
    if k == 0 {
      assert xs[..0] == [];
    } else {
      DeliveredAreAccepted(xs, k - 1);
      RunPrefixStep(xs, k - 1);
      var w := Run(xs[..k - 1]);
      var x := xs[k - 1];
      var sent: seq<Message> := [];
      if !w.stopped && x.msg.NewData? && ShouldSave(w.lastSave, x.now, x.thresholdSecs) {
        assert Accepted(xs, k - 1);
        if x.guiOpen {
          sent := [CsvWriteStatus(x.writeOk), NewData(x.msg.point)];
          PairFilters(x.writeOk, x.msg.point);
        }
      } else {
        assert !Accepted(xs, k - 1);
        if !w.stopped && x.msg.StatusUpdate? && x.guiOpen {
          sent := [StatusUpdate(x.msg.status)];
          assert sent[..0] == [];
        }
      }
      assert Run(xs[..k]).out == w.out + sent;
      FiltersAppend(w.out, sent);
    }
  }

  /** With the GUI alive throughout, every accepted reading is forwarded. */
  lemma GuiAliveDeliversAllAccepted(xs: seq<Inbound>)
    requires GuiAlive(xs)
    ensures DataPoints(Run(xs).out) == AcceptedPoints(xs, |xs|)
    ensures forall j :: 0 <= j < |xs| && Accepted(xs, j) ==> xs[j].msg.point in DataPoints(Run(xs).out)
  {
    DeliveredAreAccepted(xs, |xs|);
    assert xs[..|xs|] == xs;
    forall j | 0 <= j < |xs| && Accepted(xs, j)
      ensures xs[j].msg.point in AcceptedPoints(xs, |xs|)
    {
      AcceptedPointsGrow(xs, j + 1, |xs|);
    }
  }

  lemma {:induction false} AcceptedPointsGrow(xs: seq<Inbound>, k: nat, n: nat)
    requires 0 < k <= n <= |xs| && Accepted(xs, k - 1) && xs[k - 1].guiOpen
    ensures xs[k - 1].msg.point in AcceptedPoints(xs, n)
    decreases n - k
  {
    if n > k {
      AcceptedPointsGrow(xs, k, n - 1);
    }
  }

  /** Every message the worker delivers is a status text, or a write outcome directly followed by its reading. */
  predicate WellPaired(out: seq<Message>) {
    && (forall i :: 0 <= i < |out| && out[i].NewData? ==> i > 0 && out[i - 1].CsvWriteStatus?)
    && (forall i :: 0 <= i < |out| && out[i].CsvWriteStatus? ==> i + 1 < |out| && out[i + 1].NewData?)
  }

  /** Each write outcome the worker delivers is directly followed by its reading, and each reading preceded by one. */
  lemma {:induction false} OutputIsWellPaired(xs: seq<Inbound>)
    ensures WellPaired(Run(xs).out)
    decreases |xs|
  {
    if xs != [] {
      OutputIsWellPaired(xs[..|xs| - 1]);
    }
  }

  /**
   * The worker delivers exactly one write outcome per forwarded reading:
   * inbound write outcomes are never forwarded.
   */
  lemma {:induction false} OneOutcomePerReading(xs: seq<Inbound>)
    ensures |WriteOutcomes(Run(xs).out)| == |DataPoints(Run(xs).out)|
    decreases |xs|
  {
    if xs != [] {
      var prev := xs[..|xs| - 1];
      OneOutcomePerReading(prev);
      var w := Run(prev);
      var x := xs[|xs| - 1];
      if !w.stopped {
        match x.msg
        case NewData(p) =>
          if ShouldSave(w.lastSave, x.now, x.thresholdSecs) && x.guiOpen {
            var sent := [CsvWriteStatus(x.writeOk), NewData(p)];
            assert Run(xs).out == w.out + sent;
            FiltersAppend(w.out, sent);
            assert sent[..1] == [CsvWriteStatus(x.writeOk)];
            assert WriteOutcomes(sent[..1]) == [x.writeOk] && DataPoints(sent[..1]) == [];
          } else {
            assert Run(xs).out == w.out;
          }
        case StatusUpdate(st) =>
          if x.guiOpen {
            assert Run(xs).out == w.out + [StatusUpdate(st)];
            FiltersAppend(w.out, [StatusUpdate(st)]);
          } else {
            assert Run(xs).out == w.out;
          }
        case CsvWriteStatus(_) =>
          assert Run(xs).out == w.out;
      }
    }
  }

  /** The inbound messages themselves. */
  function Messages(xs: seq<Inbound>): (ms: seq<Message>)
    ensures |ms| == |xs| && forall i :: 0 <= i < |xs| ==> ms[i] == xs[i].msg
  {
    seq(|xs|, i requires 0 <= i < |xs| => xs[i].msg)
  }

  predicate GuiAlive(xs: seq<Inbound>) {
    forall i :: 0 <= i < |xs| ==> xs[i].guiOpen
  }

  /**
   * While the GUI is alive the worker never exits, forwards every status
   * text unchanged and in order, and drops every inbound write outcome.
   */
  lemma {:induction false} StatusPassthrough(xs: seq<Inbound>)
    requires GuiAlive(xs)
    ensures !Run(xs).stopped
    ensures Statuses(Run(xs).out) == Statuses(Messages(xs))
    decreases |xs|
  {
    if xs != [] {
      var n := |xs| - 1;
      var prev := xs[..n];
      StatusPassthrough(prev);
      var w := Run(prev);
      assert Messages(xs)[..n] == Messages(prev);
      var m := xs[n].msg;
      match m
      case NewData(p) =>
        var sent := if ShouldSave(w.lastSave, xs[n].now, xs[n].thresholdSecs) then [CsvWriteStatus(xs[n].writeOk), NewData(p)] else [];
        assert Run(xs).out == w.out + sent;
        FiltersAppend(w.out, sent);
        if sent != [] {
          assert sent[..1] == [CsvWriteStatus(xs[n].writeOk)];
          assert Statuses(sent[..1]) == [];
        }
        assert Statuses(sent) == [];
        assert Statuses(Messages(xs)) == Statuses(Messages(prev));
      case StatusUpdate(s) =>
        assert Run(xs).out == w.out + [m];
      case CsvWriteStatus(_) =>
    }
  }

  /** With a threshold of zero (and the GUI alive) every reading is accepted and forwarded, in order. */
  lemma {:induction false} ZeroThresholdForwardsAll(xs: seq<Inbound>)
    requires GuiAlive(xs)
    requires forall i :: 0 <= i < |xs| ==> xs[i].thresholdSecs == 0
    ensures !Run(xs).stopped
    ensures DataPoints(Run(xs).out) == DataPoints(Messages(xs))
    decreases |xs|
  {
    if xs != [] {
      var n := |xs| - 1;
      var prev := xs[..n];
      ZeroThresholdForwardsAll(prev);
      var w := Run(prev);
      assert Messages(xs)[..n] == Messages(prev);
      var m := xs[n].msg;
      match m
      case NewData(p) =>
        var sent := [CsvWriteStatus(xs[n].writeOk), NewData(p)];
        assert Run(xs).out == w.out + sent;
        FiltersAppend(w.out, sent);
        assert sent[..1] == [CsvWriteStatus(xs[n].writeOk)];
        assert DataPoints(sent[..1]) == [];
        assert DataPoints(sent) == [p];
        assert DataPoints(Messages(xs)) == DataPoints(Messages(prev)) + [p];
      case StatusUpdate(s) =>
        assert Run(xs).out == w.out + [m];
      case CsvWriteStatus(_) =>
    }
  }

  /**
   * Handing the same reading over again with the clock unchanged is
   * suppressed whenever the threshold is positive.
   */
  lemma ReplayIsSuppressed(xs: seq<Inbound>, x: Inbound)
    requires x.msg.NewData? && x.thresholdSecs > 0
    requires Run(xs + [x]).lastSave == Some(x.now)
    ensures Run(xs + [x, x]) == Run(xs + [x])
  {
    assert (xs + [x, x])[..|xs| + 1] == xs + [x];
  }

  function Point(t: int): DataPoint {
    DataPoint(t, 215, 40, "tp357", None, [])
  }

  function ReadingAt(t: int): Inbound {
    Inbound(NewData(Point(t)), t * TicksPerSecond, 30, true, true)
  }

  /**
   * A 30 s threshold over readings at 0, 10, 20, 35 and 60 s: 10 s and 20 s
   * are suppressed, 35 s is accepted (35 s after 0 s), and 60 s is
   * suppressed because only 25 s passed since the accepted 35 s reading.
   */
  lemma ThirtySecondExample()
    ensures DataPoints(Run([ReadingAt(0), ReadingAt(10), ReadingAt(20), ReadingAt(35), ReadingAt(60)]).out)
      == [Point(0), Point(35)]
  {
    var xs := [ReadingAt(0), ReadingAt(10), ReadingAt(20), ReadingAt(35), ReadingAt(60)];
    assert xs[..1] == [ReadingAt(0)];
    assert Run(xs[..1]) == Worker(Some(0), [CsvWriteStatus(true), NewData(Point(0))], false);
    assert xs[..2][..1] == xs[..1];
    assert Run(xs[..2]) == Run(xs[..1]);
    assert xs[..3][..2] == xs[..2];
    assert Run(xs[..3]) == Run(xs[..1]);
    assert xs[..4][..3] == xs[..3];
    var w4 := Worker(Some(35 * TicksPerSecond),
                     [CsvWriteStatus(true), NewData(Point(0)), CsvWriteStatus(true), NewData(Point(35))], false);
    assert Run(xs[..4]) == w4;
    assert xs[..5][..4] == xs[..4];
    assert xs[..5] == xs;
    assert Run(xs) == w4;
    var out := w4.out;
    assert out[..3][..2][..1] == [CsvWriteStatus(true)];
    assert out[..3][..2] == out[..2];
    assert DataPoints(out[..1]) == [];
    assert DataPoints(out[..2]) == [Point(0)];
    assert DataPoints(out[..3]) == [Point(0)];
  }
}
