/**
 * The GUI side of the pipeline: the bounded history of plotted points, the
 * reducer that applies each delivered message to the GUI state, and the
 * selection of records loaded at startup.
 */
module History {
  import opened Types

  /** The history bound: unbounded (usize::MAX) when all history is kept, else 200. */
  function Limit(loadAll: bool): (n: nat)
    ensures n >= 1
  {
    if loadAll then UsizeMax else MaxHistoryPoints
  }

  function ToHistoryPoint(d: DataPoint): HistoryPoint {
    HistoryPoint(d.timestamp, d.tempTenths, d.hum)
  }

  /** `while len >= limit { pop_front() }`, one pop per step. */
  function Evict(h: seq<HistoryPoint>, limit: nat): seq<HistoryPoint>
    requires limit >= 1
    decreases |h|
  {
    if |h| >= limit then Evict(h[1..], limit) else h
  }

  /** The history after `add_data_point`: evict from the front, then push at the back. */
  function AddPoint(h: seq<HistoryPoint>, p: HistoryPoint, loadAll: bool): seq<HistoryPoint> {
    Evict(h, Limit(loadAll)) + [p]
  }

  lemma {:induction false} EvictKeepsNewest(h: seq<HistoryPoint>, limit: nat)
    requires limit >= 1
    ensures Evict(h, limit) == LastN(h, limit - 1)
    decreases |h|
  {
    if |h| >= limit {
      EvictKeepsNewest(h[1..], limit);
      var t := h[1..];
      if |t| >= limit {
        assert t[|t| - (limit - 1)..] == h[|h| - (limit - 1)..];
      } else {
        assert |t| == limit - 1;
        assert t == h[|h| - (limit - 1)..];
      }
    }
  }

  /**
   * After adding a point the history holds the newest `limit` points of the
   * old history followed by the new one: bounded by the limit, ending with
   * the new point, and the survivors in their original order.
   */
  lemma AddPointKeepsNewest(h: seq<HistoryPoint>, p: HistoryPoint, loadAll: bool)
    ensures AddPoint(h, p, loadAll) == LastN(h + [p], Limit(loadAll))
    ensures |AddPoint(h, p, loadAll)| <= Limit(loadAll)
    ensures AddPoint(h, p, loadAll)[|AddPoint(h, p, loadAll)| - 1] == p
    ensures loadAll && |h| < UsizeMax ==> AddPoint(h, p, loadAll) == h + [p]
  {
    var limit := Limit(loadAll);
    EvictKeepsNewest(h, limit);
    var s := h + [p];
    if |s| > limit {
      assert s[|s| - limit..] == h[|h| - (limit - 1)..] + [p];
    }
  }

  /** What the GUI shows from the pipeline. */
  datatype View = View(
    history: seq<HistoryPoint>,
    lastDataPoint: Option<DataPoint>,
    lastCsvWriteOk: bool,
    scanStatus: string)

  /** One arm of the message dispatch. */
  function Apply(v: View, m: Message, loadAll: bool): View {
    match m
    case NewData(d) => v.(history := AddPoint(v.history, ToHistoryPoint(d), loadAll), lastDataPoint := Some(d))
    case StatusUpdate(s) => v.(scanStatus := s)
    case CsvWriteStatus(ok) => v.(lastCsvWriteOk := ok)
  }

  /** The messages drained in one frame, applied in order. */
  function ApplyAll(v: View, ms: seq<Message>, loadAll: bool): View
    decreases |ms|
  {
    if ms == [] then v else Apply(ApplyAll(v, ms[..|ms| - 1], loadAll), ms[|ms| - 1], loadAll)
  }

  function HistoryPoints(ds: seq<DataPoint>): (hs: seq<HistoryPoint>)
    ensures |hs| == |ds| && forall i :: 0 <= i < |ds| ==> hs[i] == ToHistoryPoint(ds[i])
  {
    seq(|ds|, i requires 0 <= i < |ds| => ToHistoryPoint(ds[i]))
  }

  lemma LastNOfLastN<T>(s: seq<T>, p: T, n: nat)
    requires n >= 1
    ensures LastN(LastN(s, n) + [p], n) == LastN(s + [p], n)
  {
    var t := s + [p];
    if |s| > n {
      assert LastN(s, n) + [p] == s[|s| - n..] + [p];
      assert (s[|s| - n..] + [p])[1..] == t[|t| - n..];
    }
  }

  /**
   * Whatever the messages, the history is the newest points (at most the
   * limit) of the old history followed by every delivered reading, in order.
   * This holds from any history once a reading arrives: a history longer
   * than the limit (the limit can shrink while the application runs) is cut
   * down by the first reading. Without readings the history is untouched.
   */
  lemma {:induction false} HistoryIsNewestPoints(v: View, ms: seq<Message>, loadAll: bool)
    ensures DataPoints(ms) == [] ==> ApplyAll(v, ms, loadAll).history == v.history
    ensures |v.history| <= Limit(loadAll) || DataPoints(ms) != [] ==>
      ApplyAll(v, ms, loadAll).history == LastN(v.history + HistoryPoints(DataPoints(ms)), Limit(loadAll))
    decreases |ms|
  {
    var limit := Limit(loadAll);
    if ms == [] {
      assert v.history + HistoryPoints(DataPoints(ms)) == v.history;
    } else {
      var n := |ms| - 1;
      var prev := ms[..n];
      HistoryIsNewestPoints(v, prev, loadAll);
      var before := v.history + HistoryPoints(DataPoints(prev));
      var w := ApplyAll(v, prev, loadAll);
      match ms[n]
      case NewData(d) =>
        var p := ToHistoryPoint(d);
        AddPointKeepsNewest(w.history, p, loadAll);
        assert DataPoints(ms) == DataPoints(prev) + [d];
        assert HistoryPoints(DataPoints(ms)) == HistoryPoints(DataPoints(prev)) + [p];
        assert v.history + HistoryPoints(DataPoints(ms)) == before + [p];
        if DataPoints(prev) == [] {
          assert before == v.history;
        }
        if |v.history| <= limit || DataPoints(prev) != [] {
          LastNOfLastN(before, p, limit);
        }
      case StatusUpdate(_) =>
        assert DataPoints(ms) == DataPoints(prev);
      case CsvWriteStatus(_) =>
        assert DataPoints(ms) == DataPoints(prev);
    }
  }

  /** A history within the limit stays within it, whatever the messages. */
  lemma HistoryStaysBounded(v: View, ms: seq<Message>, loadAll: bool)
    requires |v.history| <= Limit(loadAll)
    ensures |ApplyAll(v, ms, loadAll).history| <= Limit(loadAll)
  {
    HistoryIsNewestPoints(v, ms, loadAll);
  }

  /** The status text shows the newest status message, or keeps its value when none arrived. */
  lemma {:induction false} LatestStatusWins(v: View, ms: seq<Message>, loadAll: bool)
    ensures ApplyAll(v, ms, loadAll).scanStatus ==
      if Statuses(ms) == [] then v.scanStatus else Statuses(ms)[|Statuses(ms)| - 1]
    decreases |ms|
  {
    if ms != [] {
      var prev := ms[..|ms| - 1];
      LatestStatusWins(v, prev, loadAll);
      var m := ms[|ms| - 1];
      if m.StatusUpdate? {
        assert Statuses(ms) == Statuses(prev) + [m.status];
      } else {
        assert Statuses(ms) == Statuses(prev);
      }
    }
  }

  /** The CSV flag shows the newest write outcome, or keeps its value when none arrived. */
  lemma {:induction false} LatestWriteOutcomeWins(v: View, ms: seq<Message>, loadAll: bool)
    ensures ApplyAll(v, ms, loadAll).lastCsvWriteOk ==
      if WriteOutcomes(ms) == [] then v.lastCsvWriteOk else WriteOutcomes(ms)[|WriteOutcomes(ms)| - 1]
    decreases |ms|
  {
    if ms != [] {
      var prev := ms[..|ms| - 1];
      LatestWriteOutcomeWins(v, prev, loadAll);
      var m := ms[|ms| - 1];
      if m.CsvWriteStatus? {
        assert WriteOutcomes(ms) == WriteOutcomes(prev) + [m.ok];
      } else {
        assert WriteOutcomes(ms) == WriteOutcomes(prev);
      }
    }
  }

  /** The last data point is the newest delivered reading, or keeps its value when none arrived. */
  lemma {:induction false} LatestDataPointWins(v: View, ms: seq<Message>, loadAll: bool)
    ensures ApplyAll(v, ms, loadAll).lastDataPoint ==
      if DataPoints(ms) == [] then v.lastDataPoint else Some(DataPoints(ms)[|DataPoints(ms)| - 1])
    decreases |ms|
  {
    if ms != [] {
      var prev := ms[..|ms| - 1];
      LatestDataPointWins(v, prev, loadAll);
      var m := ms[|ms| - 1];
      if m.NewData? {
        assert DataPoints(ms) == DataPoints(prev) + [m.point];
      } else {
        assert DataPoints(ms) == DataPoints(prev);
      }
    }
  }

  /** `len.saturating_sub(MAX_HISTORY_POINTS)`. */
  function StartIndex(n: nat): nat {
    if n >= MaxHistoryPoints then n - MaxHistoryPoints else 0
  }

  /** The CSV records considered at startup: all of them, or those from the start index on. */
  function RecordsToLoad<T>(records: seq<T>, loadAll: bool): (r: seq<T>)
    ensures loadAll ==> r == records
    ensures !loadAll ==> r == LastN(records, MaxHistoryPoints)
    ensures !loadAll ==> |r| == if |records| < MaxHistoryPoints then |records| else MaxHistoryPoints
  {
    if loadAll then records else records[StartIndex(|records|)..]
  }

  /** The rows that parse, in order (None stands for a row that does not). */
  function Parsed(rows: seq<Option<HistoryPoint>>): (h: seq<HistoryPoint>)
    ensures |h| <= |rows|
    ensures forall p :: p in h <==> Some(p) in rows
    ensures (forall i :: 0 <= i < |rows| ==> rows[i].Some?) ==> |h| == |rows|
    decreases |rows|
  {
    if rows == [] then []
    else
      var r := rows[|rows| - 1];
      assert rows == rows[..|rows| - 1] + [r];
      Parsed(rows[..|rows| - 1]) + (if r.Some? then [r.value] else [])
  }

  /**
   * Parsing keeps the file's order: the rows of a concatenation give the
   * points of the first part followed by those of the second, a parsable
   * row gives its point and a bad row gives nothing.
   */
  lemma {:induction false} ParsedKeepsOrder(a: seq<Option<HistoryPoint>>, b: seq<Option<HistoryPoint>>)
    ensures Parsed(a + b) == Parsed(a) + Parsed(b)
    ensures forall p :: Parsed([Some(p)]) == [p]
    ensures Parsed([None]) == []
    decreases |b|
  {
    forall p ensures Parsed([Some(p)]) == [p] {
      assert [Some(p)][..0] == [];
    }
    var bad: seq<Option<HistoryPoint>> := [None];
    assert bad[..0] == [];
    if b == [] {
      assert a + b == a;
    } else {
      var b' := b[..|b| - 1];
      assert (a + b)[..|a + b| - 1] == a + b';
      ParsedKeepsOrder(a, b');
    }
  }

  /**
   * `load_history_from_csv` on the records the CSV reader accepted: the
   * window is chosen among all records before parsing, so a row that fails
   * to parse still takes a place in it.
   */
  function LoadHistory(rows: seq<Option<HistoryPoint>>, loadAll: bool): (h: seq<HistoryPoint>)
    ensures !loadAll ==> |h| <= MaxHistoryPoints
    ensures loadAll ==> forall p :: p in h <==> Some(p) in rows
    ensures !loadAll ==> forall p :: p in h <==> Some(p) in LastN(rows, MaxHistoryPoints)
  {
    Parsed(RecordsToLoad(rows, loadAll))
  }

  /** The record loop of `load_history_from_csv`: push every row that parses. */
  method LoadHistoryFromCsv(rows: seq<Option<HistoryPoint>>, loadAll: bool) returns (history: seq<HistoryPoint>)
    ensures history == LoadHistory(rows, loadAll)
  {
    var records := if loadAll then rows else rows[StartIndex(|rows|)..];
    history := [];
    for i := 0 to |records|
      invariant history == Parsed(records[..i])
    {
      assert records[..i + 1][..i] == records[..i];
      if records[i].Some? {
        history := history + [records[i].value];
      }
    }
    assert records[..|records|] == records;
  }

  /**
   * The window comes before parsing: 200 good rows followed by one bad row
   * load only 199 points when the history is limited, although 200 rows
   * parse; loading everything gives all 200.
   */
  lemma WindowBeforeParsing(p: HistoryPoint)
    ensures
      var rows := seq(MaxHistoryPoints, i => Some(p)) + [None];
      && |LoadHistory(rows, false)| == MaxHistoryPoints - 1
      && |LoadHistory(rows, true)| == MaxHistoryPoints
  {
    var good := seq(MaxHistoryPoints, i => Some(p));
    var rows := good + [None];
    assert LastN(rows, MaxHistoryPoints) == good[1..] + [None];
    ParsedKeepsOrder(good[1..], [None]);
    ParsedKeepsOrder(good, [None]);
  }

  /** The GUI application object, restricted to the state the pipeline drives. */
  class TempMonitorApp {
    var history: seq<HistoryPoint>
    var lastDataPoint: Option<DataPoint>
    var lastCsvWriteOk: bool
    var scanStatus: string
    /** `config.load_all_history` of the running application. */
    var loadAllHistory: bool

    function State(): View
      reads this
    {
      View(history, lastDataPoint, lastCsvWriteOk, scanStatus)
    }

    /**
     * Start-up: the application's own configuration gives `loadAllHistory`;
     * the history is loaded with the configuration read from the file
     * (`fileLoadAll`), which may differ.
     */
    constructor (loadAll: bool, rows: seq<Option<HistoryPoint>>, fileLoadAll: bool)
      ensures State() == View(LoadHistory(rows, fileLoadAll), None, true, StatusInitial)
      ensures loadAllHistory == loadAll
    {
      var loaded := LoadHistoryFromCsv(rows, fileLoadAll);
      history := loaded;
      lastDataPoint := None;
      lastCsvWriteOk := true;
      scanStatus := StatusInitial;
      loadAllHistory := loadAll;
    }

    method AddDataPoint(data: DataPoint)
      modifies this
      ensures history == AddPoint(old(history), ToHistoryPoint(data), loadAllHistory)
      ensures lastDataPoint == Some(data)
      ensures lastCsvWriteOk == old(lastCsvWriteOk) && scanStatus == old(scanStatus)
      ensures loadAllHistory == old(loadAllHistory)
    {
      var limit := Limit(loadAllHistory);
      while |history| >= limit
        invariant Evict(history, limit) == Evict(old(history), limit)
        invariant lastCsvWriteOk == old(lastCsvWriteOk) && scanStatus == old(scanStatus)
        invariant lastDataPoint == old(lastDataPoint) && loadAllHistory == old(loadAllHistory)
        decreases |history|
      {
        history := history[1..];
      }
      history := history + [ToHistoryPoint(data)];
      lastDataPoint := Some(data);
    }

    /** The `while let Ok(message) = rx.try_recv()` dispatch of one frame. */
    method DrainMessages(inbox: seq<Message>)
      modifies this
      ensures State() == ApplyAll(old(State()), inbox, loadAllHistory)
      ensures loadAllHistory == old(loadAllHistory)
    {
      var i := 0;
      while i < |inbox|
        invariant 0 <= i <= |inbox|
        invariant State() == ApplyAll(old(State()), inbox[..i], loadAllHistory)
        invariant loadAllHistory == old(loadAllHistory)
      {
        assert inbox[..i + 1][..i] == inbox[..i];
        match inbox[i] {
          case NewData(dataPoint) => AddDataPoint(dataPoint);
          case StatusUpdate(status) => scanStatus := status;
          case CsvWriteStatus(ok) => lastCsvWriteOk := ok;
        }
        i := i + 1;
      }
      assert inbox[..i] == inbox;
    }
  }
}
