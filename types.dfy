/**
 * Values shared by the acquisition pipeline and the GUI: configuration,
 * the reading record, the channel message and small filters over message
 * sequences.
 */
module Types {

  datatype Option<+T> = None | Some(value: T)

  type byte = x: int | 0 <= x < 0x100
  type u16 = x: int | 0 <= x < 0x1_0000
  type i16 = x: int | -0x8000 <= x < 0x8000

  /** usize::MAX on a 64-bit target: the history limit when all history is kept. */
  const UsizeMax: nat := 0xFFFF_FFFF_FFFF_FFFF

  /** Number of points the GUI keeps when it does not keep all history. */
  const MaxHistoryPoints: nat := 200

  /** Resolution of the monotonic clock: ticks (nanoseconds) per second. */
  const TicksPerSecond: nat := 1_000_000_000

  /** Status texts the scanner sends to the GUI. */
  const StatusAdapterError: string := "Chyba: BT adaptér nenalezen"
  const StatusScanning: string := "Skenuji..."
  const StatusScanningContinuous: string := "Skenuji (kontinuální režim)..."
  const StatusWaiting: string := "Čekám..."
  const StatusInitial: string := "Inicializace..."

  /** The user configuration, without the two warning thresholds (display only). */
  datatype Config = Config(
    targetMac: string,
    scanTimeoutSecs: nat,
    scanPauseSecs: nat,
    duplicateThresholdSecs: nat,
    continuousMode: bool,
    loadAllHistory: bool)

  /** The configuration used when no stored configuration can be read. */
  function DefaultConfig(): Config {
    Config("B8:59:CE:33:0F:93", 20, 20, 30, true, true)
  }

  /**
   * One decoded advertisement. Time is local wall-clock seconds, temperature
   * is in tenths of a degree (the source divides by 10 as a float).
   */
  datatype DataPoint = DataPoint(
    timestamp: int,
    tempTenths: i16,
    hum: byte,
    deviceId: string,
    rssi: Option<i16>,
    rawData: seq<byte>)

  /** A point of the GUI's plotted history. */
  datatype HistoryPoint = HistoryPoint(timestamp: int, tempTenths: int, hum: byte)

  /** The messages carried by both channels of the pipeline. */
  datatype Message =
    | NewData(point: DataPoint)
    | StatusUpdate(status: string)
    | CsvWriteStatus(ok: bool)

  /** The readings carried by a message sequence, in order. */
  function DataPoints(ms: seq<Message>): seq<DataPoint>
    decreases |ms|
  {
    if ms == [] then []
    else
      var m := ms[|ms| - 1];
      DataPoints(ms[..|ms| - 1]) + (if m.NewData? then [m.point] else [])
  }

  /** The status texts carried by a message sequence, in order. */
  function Statuses(ms: seq<Message>): seq<string>
    decreases |ms|
  {
    if ms == [] then []
    else
      var m := ms[|ms| - 1];
      Statuses(ms[..|ms| - 1]) + (if m.StatusUpdate? then [m.status] else [])
  }

  /** The CSV write outcomes carried by a message sequence, in order. */
  function WriteOutcomes(ms: seq<Message>): seq<bool>
    decreases |ms|
  {
    if ms == [] then []
    else
      var m := ms[|ms| - 1];
      WriteOutcomes(ms[..|ms| - 1]) + (if m.CsvWriteStatus? then [m.ok] else [])
  }

  lemma {:induction false} FiltersAppend(a: seq<Message>, b: seq<Message>)
    ensures DataPoints(a + b) == DataPoints(a) + DataPoints(b)
    ensures Statuses(a + b) == Statuses(a) + Statuses(b)
    ensures WriteOutcomes(a + b) == WriteOutcomes(a) + WriteOutcomes(b)
    decreases |b|
  {
    if b == [] {
      assert a + b == a;
    } else {
      var b' := b[..|b| - 1];
      assert (a + b)[..|a + b| - 1] == a + b';
      FiltersAppend(a, b');
    }
  }

  /** The newest (last) n elements of s, or all of s when it is shorter. */
  function LastN<T>(s: seq<T>, n: nat): (r: seq<T>)
    ensures |r| <= n && |r| <= |s|
  {
    if |s| <= n then s else s[|s| - n..]
  }
}
