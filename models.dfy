/**
 * The two tables of the monitor: protocol metric snapshots and the alerts
 * raised from them, with the constraints the schema places on them.
 */
module Models {
  import opened Wrappers

  /** One hour and one day, in seconds: instants are whole seconds since the epoch. */
  const HOUR: int := 3600
  const DAY: int := 86400

  /**
   * A row of protocol_snapshots. The name and the instant are mandatory;
   * the three metrics are nullable columns.
   */
  datatype Snapshot = Snapshot(
    protocol: string,
    timestamp: int,
    tvl: Option<real>,
    apy: Option<real>,
    utilization: Option<real>)

  /** The three kinds of alert the detector raises, stored as 'tvl_drop', 'apy_low', 'utilization_high'. */
  datatype AlertType = TvlDrop | ApyLow | UtilizationHigh

  /** The severity column: 'critical', 'warning' or 'info'. */
  datatype Severity = Critical | Warning | Info

  /**
   * The alert message. The stored text is a formatted sentence; the model
   * keeps the values that sentence is built from.
   */
  datatype Message =
    | TvlDropMessage(drop: real, lookbackHours: nat, oldTvl: real, currentTvl: real)
    | ApyLowMessage(apy: real, apyMin: real)
    | UtilizationHighMessage(utilization: real, utilizationMax: real)

  /**
   * A row of protocol_alerts. Name, type, severity and trigger instant are
   * mandatory; the message and the resolution instant are nullable.
   */
  datatype Alert = Alert(
    id: int,
    protocol: string,
    alertType: AlertType,
    severity: Severity,
    message: Option<Message>,
    triggeredAt: int,
    resolvedAt: Option<int>)

  /** The key under which open alerts are deduplicated. */
  datatype AlertKey = AlertKey(protocol: string, alertType: AlertType)

  /** Python truthiness of a nullable number: NULL and zero both read as false. */
  predicate Present(v: Option<real>) {
    v.Some? && v.value != 0.0
  }

  /** `x if x else None`: a zero reads as missing, any other value is kept. */
  function Nullify(v: Option<real>): (r: Option<real>)
    ensures r.Some? <==> Present(v)
    ensures r.Some? ==> r == v
  {
    if Present(v) then v else None
  }

  /** An alert is active exactly while it has no resolution instant. */
  predicate IsOpen(a: Alert) {
    a.resolvedAt.None?
  }

  function KeyOf(a: Alert): AlertKey {
    AlertKey(a.protocol, a.alertType)
  }

  /** The uq_protocol_timestamp constraint: no two rows share (protocol_name, timestamp). */
  predicate UniqueKeys(snaps: seq<Snapshot>) {
    forall i, j :: 0 <= i < j < |snaps| ==>
      snaps[i].protocol != snaps[j].protocol || snaps[i].timestamp != snaps[j].timestamp
  }

  /** Autoincrement ids: the alert in row k has id k + 1 (rows are never deleted). */
  predicate IdsSequential(alerts: seq<Alert>) {
    forall k :: 0 <= k < |alerts| ==> alerts[k].id == k + 1
  }

  /** The dedup contract: at most one open alert per (protocol, alert type). */
  predicate AtMostOneOpenPerKey(alerts: seq<Alert>) {
    forall i, j :: 0 <= i < j < |alerts| && IsOpen(alerts[i]) && IsOpen(alerts[j]) ==>
      KeyOf(alerts[i]) != KeyOf(alerts[j])
  }

  /** Some open alert carries key k. */
  predicate HasOpen(alerts: seq<Alert>, k: AlertKey) {
    exists i :: 0 <= i < |alerts| && IsOpen(alerts[i]) && KeyOf(alerts[i]) == k
  }

  /** protocol_name of every snapshot, in table order (with repeats). */
  function ProtocolNames(snaps: seq<Snapshot>): (r: seq<string>)
    ensures |r| == |snaps|
    ensures forall k :: 0 <= k < |snaps| ==> r[k] == snaps[k].protocol
  {
    if snaps == [] then [] else ProtocolNames(snaps[..|snaps| - 1]) + [snaps[|snaps| - 1].protocol]
  }

  /** The database: the two tables, which the operations replace as they commit. */
  class Db {
    var snapshots: seq<Snapshot>
    var alerts: seq<Alert>

    ghost predicate Valid()
      reads this
    {
      UniqueKeys(snapshots) && IdsSequential(alerts) && AtMostOneOpenPerKey(alerts)
    }

    constructor ()
      ensures Valid() && snapshots == [] && alerts == []
    {
      snapshots, alerts := [], [];
    }
  }
}
