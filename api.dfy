/**
 * The read side and the one lifecycle transition of the HTTP service:
 * protocol status, alert listing and resolution, protocol history and list,
 * and the health summary. Each endpoint is modelled on the two tables;
 * routing, sessions and response serialisation are not part of it.
 */
module Api {
  import opened Wrappers
  import opened Models
  import opened Collections
  import opened AnomalyDetector

  // ---------------------------------------------------------------------------
  // _get_protocol_status
  // ---------------------------------------------------------------------------

  /** The status shown for a protocol: 'healthy', 'warning' or 'critical'. */
  datatype ProtocolStatus = StatusHealthy | StatusWarning | StatusCritical

  /** How bad a status is: healthy < warning < critical. */
  function StatusRank(s: ProtocolStatus): nat {
    match s
    case StatusHealthy => 0
    case StatusWarning => 1
    case StatusCritical => 2
  }

  /** Some unresolved alert of protocol p has severity sev. */
  predicate OpenWithSeverity(alerts: seq<Alert>, p: string, sev: Severity) {
    exists i :: 0 <= i < |alerts| && alerts[i].protocol == p && alerts[i].severity == sev && IsOpen(alerts[i])
  }

  /** Critical beats warning beats healthy, looking only at unresolved alerts. */
  function StatusOf(alerts: seq<Alert>, p: string): ProtocolStatus {
    if OpenWithSeverity(alerts, p, Critical) then StatusCritical
    else if OpenWithSeverity(alerts, p, Warning) then StatusWarning
    else StatusHealthy
  }

  /** The status reflects exactly the open critical and warning alerts of the protocol. */
  lemma StatusPrecedence(alerts: seq<Alert>, p: string)
    ensures StatusOf(alerts, p) == StatusCritical <==>
              exists i :: 0 <= i < |alerts| && alerts[i].protocol == p && alerts[i].severity == Critical && alerts[i].resolvedAt.None?
    ensures StatusOf(alerts, p) == StatusHealthy <==>
              forall i :: 0 <= i < |alerts| && alerts[i].protocol == p && alerts[i].resolvedAt.None? ==> alerts[i].severity == Info
    ensures StatusOf(alerts, p) == StatusWarning <==>
              (forall i :: 0 <= i < |alerts| && alerts[i].protocol == p && alerts[i].resolvedAt.None? ==> alerts[i].severity != Critical)
              && exists i :: 0 <= i < |alerts| && alerts[i].protocol == p && alerts[i].severity == Warning && alerts[i].resolvedAt.None?
  {
    if !OpenWithSeverity(alerts, p, Critical) && !OpenWithSeverity(alerts, p, Warning) {
      forall i | 0 <= i < |alerts| && alerts[i].protocol == p && alerts[i].resolvedAt.None?
        ensures alerts[i].severity == Info
      {
        assert alerts[i].severity != Critical && alerts[i].severity != Warning;
      }
    }
  }

  /** Adding resolved alerts, info alerts or other protocols' alerts never changes a status. */
  lemma StatusIgnoresIrrelevant(alerts: seq<Alert>, extra: seq<Alert>, p: string)
    requires forall i :: 0 <= i < |extra| ==> !IsOpen(extra[i]) || extra[i].severity == Info || extra[i].protocol != p
    ensures StatusOf(alerts + extra, p) == StatusOf(alerts, p)
  {
    var all := alerts + extra;
    forall sev | sev != Info
      ensures OpenWithSeverity(all, p, sev) == OpenWithSeverity(alerts, p, sev)
    {
      if OpenWithSeverity(all, p, sev) {
        var i :| 0 <= i < |all| && all[i].protocol == p && all[i].severity == sev && IsOpen(all[i]);
        if i < |alerts| {
          assert all[i] == alerts[i];
        }
      }
      if OpenWithSeverity(alerts, p, sev) {
        var i :| 0 <= i < |alerts| && alerts[i].protocol == p && alerts[i].severity == sev && IsOpen(alerts[i]);
        assert all[i] == alerts[i];
      }
    }
  }

  /** A detection pass that raises a tvl_drop alert leaves that protocol critical. */
  lemma TvlDropMakesCritical(cfg: Config, snaps: seq<Snapshot>, alerts: seq<Alert>, now: int, fails: set<AlertKey>, k: int)
    requires var r := DetectionPass(cfg, snaps, alerts, now, fails);
             |alerts| <= k < |r| && r[k].alertType == TvlDrop
    ensures var r := DetectionPass(cfg, snaps, alerts, now, fails);
            StatusOf(r, r[k].protocol) == StatusCritical
  {
    PassAlertsAreSound(cfg, snaps, alerts, now, fails);
  }

  // ---------------------------------------------------------------------------
  // resolve_alert
  // ---------------------------------------------------------------------------

  datatype ResolveError = AlertNotFound | AlreadyResolved

  /** The first row whose id is id, if any. */
  function FindAlert(alerts: seq<Alert>, id: int): (r: Option<nat>)
    ensures r.Some? ==> r.value < |alerts| && alerts[r.value].id == id
    ensures r.Some? ==> forall i :: 0 <= i < r.value ==> alerts[i].id != id
    ensures r.None? <==> forall i :: 0 <= i < |alerts| ==> alerts[i].id != id
  {
    if alerts == [] then None
    else
      var found := FindAlert(alerts[..|alerts| - 1], id);
      if found.Some? then found
      else if alerts[|alerts| - 1].id == id then Some(|alerts| - 1)
      else None
  }

  /** With sequential ids, the row of id is row id - 1. */
  lemma FindAlertSequential(alerts: seq<Alert>, id: int)
    requires IdsSequential(alerts)
    ensures FindAlert(alerts, id) == if 1 <= id <= |alerts| then Some(id - 1) else None
  {
    if 1 <= id <= |alerts| {
      assert alerts[id - 1].id == id;
    }
  }

  /** The table after resolve_alert, and the alert it returns. */
  datatype Resolution = Resolution(alerts: seq<Alert>, alert: Alert)

  /** resolve_alert on a table: not found, already resolved, or resolved now. */
  function Resolve(alerts: seq<Alert>, id: int, now: int): Result<Resolution, ResolveError> {
    match FindAlert(alerts, id)
    case None => Failure(AlertNotFound)
    case Some(i) =>
      if alerts[i].resolvedAt.Some? then Failure(AlreadyResolved)
      else
        var resolved := alerts[i].(resolvedAt := Some(now));
        Success(Resolution(alerts[i := resolved], resolved))
  }

  /** Each outcome of resolve_alert happens exactly in its case. */
  lemma ResolveOutcomes(alerts: seq<Alert>, id: int, now: int)
    ensures Resolve(alerts, id, now) == Failure(AlertNotFound) <==> forall i :: 0 <= i < |alerts| ==> alerts[i].id != id
    ensures Resolve(alerts, id, now) == Failure(AlreadyResolved) <==>
              exists i :: 0 <= i < |alerts| && alerts[i].id == id && !IsOpen(alerts[i])
                          && forall j :: 0 <= j < i ==> alerts[j].id != id
  {
    var found := FindAlert(alerts, id);
    if found.Some? {
      var i := found.value;
      forall j | 0 <= j < |alerts| && alerts[j].id == id && !IsOpen(alerts[j]) && (forall m :: 0 <= m < j ==> alerts[m].id != id)
        ensures j == i
      {
      }
    }
  }

  /** A successful resolve sets resolved_at to now on that alert and changes nothing else. */
  lemma ResolveOnlyTarget(alerts: seq<Alert>, id: int, now: int)
    requires Resolve(alerts, id, now).Success?
    ensures var res := Resolve(alerts, id, now).value;
            && |res.alerts| == |alerts|
            && res.alert.id == id && res.alert.resolvedAt == Some(now)
            && exists i :: 0 <= i < |alerts| && alerts[i].id == id && IsOpen(alerts[i])
                 && res.alerts[i] == res.alert && res.alert == alerts[i].(resolvedAt := Some(now))
                 && forall j :: 0 <= j < |alerts| && j != i ==> res.alerts[j] == alerts[j]
  {
    var i := FindAlert(alerts, id).value;
    var res := Resolve(alerts, id, now).value;
    assert res.alerts[i] == res.alert;
  }

  /** Resolving the same id a second time is always rejected, and leaves the first resolution. */
  lemma ResolveTwiceRejected(alerts: seq<Alert>, id: int, now1: int, now2: int)
    requires Resolve(alerts, id, now1).Success?
    ensures Resolve(Resolve(alerts, id, now1).value.alerts, id, now2) == Failure(AlreadyResolved)
  {
    var i := FindAlert(alerts, id).value;
    var after := Resolve(alerts, id, now1).value.alerts;
    assert forall j :: 0 <= j < i ==> after[j] == alerts[j];
    assert FindAlert(after, id) == Some(i) by {
      assert after[i].id == id;
    }
  }

  /** A resolve keeps every id, and every row it leaves open is the row that was there. */
  lemma ResolveKeepsRows(alerts: seq<Alert>, id: int, now: int)
    requires Resolve(alerts, id, now).Success?
    ensures var after := Resolve(alerts, id, now).value.alerts;
            && |after| == |alerts|
            && (forall j :: 0 <= j < |after| ==> after[j].id == alerts[j].id)
            && (forall j :: 0 <= j < |after| && IsOpen(after[j]) ==> after[j] == alerts[j])
  {
  }

  /** Closing alerts, and changing nothing else that is open, never worsens a status. */
  lemma ClosingNeverWorsensStatus(alerts: seq<Alert>, after: seq<Alert>, p: string)
    requires |after| == |alerts|
    requires forall j :: 0 <= j < |after| && IsOpen(after[j]) ==> after[j] == alerts[j]
    ensures StatusRank(StatusOf(after, p)) <= StatusRank(StatusOf(alerts, p))
  {
    if OpenWithSeverity(after, p, Critical) {
      var j :| 0 <= j < |after| && after[j].protocol == p && after[j].severity == Critical && IsOpen(after[j]);
      assert after[j] == alerts[j];
    }
    if OpenWithSeverity(after, p, Warning) {
      var j :| 0 <= j < |after| && after[j].protocol == p && after[j].severity == Warning && IsOpen(after[j]);
      assert after[j] == alerts[j];
    }
  }

  /** A resolve keeps ids sequential and at most one open alert per key, and never worsens a status. */
  lemma ResolveKeepsInvariants(alerts: seq<Alert>, id: int, now: int, p: string)
    requires Resolve(alerts, id, now).Success?
    ensures var after := Resolve(alerts, id, now).value.alerts;
            && (IdsSequential(alerts) ==> IdsSequential(after))
            && (AtMostOneOpenPerKey(alerts) ==> AtMostOneOpenPerKey(after))
            && StatusRank(StatusOf(after, p)) <= StatusRank(StatusOf(alerts, p))
  {
    var after := Resolve(alerts, id, now).value.alerts;
    ResolveKeepsRows(alerts, id, now);
    ClosingNeverWorsensStatus(alerts, after, p);
  }

  /** POST /alerts/{id}/resolve: the row is updated in place and committed. */
  method ResolveAlert(db: Db, alertId: int, now: int) returns (r: Result<Alert, ResolveError>)
    requires db.Valid()
    modifies db
    ensures db.Valid() && db.snapshots == old(db.snapshots)
    ensures var res := Resolve(old(db.alerts), alertId, now);
            && (res.Success? ==> db.alerts == res.value.alerts && r == Success(res.value.alert))
            && (res.Failure? ==> db.alerts == old(db.alerts) && r == Failure(res.error))
  {
    var found := FindAlert(db.alerts, alertId);
    if found.None? {
      return Failure(AlertNotFound);
    }
    var i := found.value;
    if db.alerts[i].resolvedAt.Some? {
      return Failure(AlreadyResolved);
    }
    ResolveKeepsInvariants(db.alerts, alertId, now, "");
    var resolved := db.alerts[i].(resolvedAt := Some(now));
    db.alerts := db.alerts[i := resolved];
    r := Success(resolved);
  }

  // ---------------------------------------------------------------------------
  // get_alerts
  // ---------------------------------------------------------------------------

  datatype StatusFilter = OpenOnly | ResolvedOnly | AllAlerts

  /**
   * The query parameters of GET /alerts. An empty protocol string filters
   * nothing, as a missing one does.
   */
  datatype AlertQuery = AlertQuery(status: StatusFilter, protocol: Option<string>, severity: Option<Severity>)

  /** The protocol filter is applied only for a non-empty name. */
  predicate ProtocolFilterOn(q: AlertQuery) {
    q.protocol.Some? && q.protocol.value != ""
  }

  predicate MatchesQuery(q: AlertQuery, a: Alert) {
    && (q.status == OpenOnly ==> IsOpen(a))
    && (q.status == ResolvedOnly ==> !IsOpen(a))
    && (ProtocolFilterOn(q) ==> a.protocol == q.protocol.value)
    && (q.severity.Some? ==> a.severity == q.severity.value)
  }

  /** The WHERE clause of the alert query. */
  function QueryFilter(q: AlertQuery): Alert -> bool {
    a => MatchesQuery(q, a)
  }

  /** Sorting key for ORDER BY triggered_at DESC. */
  function NewestFirst(a: Alert): int {
    -a.triggeredAt
  }

  /** GET /alerts: the matching alerts, most recently triggered first. */
  function GetAlerts(alerts: seq<Alert>, q: AlertQuery): seq<Alert> {
    SortBy(Filter(alerts, QueryFilter(q)), NewestFirst)
  }

  /**
   * The listing holds every matching alert as often as the table does and no
   * other, ordered by triggered_at descending.
   */
  lemma GetAlertsSpec(alerts: seq<Alert>, q: AlertQuery)
    ensures var r := GetAlerts(alerts, q);
            forall a :: multiset(r)[a] ==
              if && (q.status == OpenOnly ==> a.resolvedAt.None?)
                 && (q.status == ResolvedOnly ==> a.resolvedAt.Some?)
                 && (q.protocol.Some? && q.protocol.value != "" ==> a.protocol == q.protocol.value)
                 && (q.severity.Some? ==> a.severity == q.severity.value)
              then multiset(alerts)[a] else 0
    ensures var r := GetAlerts(alerts, q);
            forall i, j :: 0 <= i < j < |r| ==> r[i].triggeredAt >= r[j].triggeredAt
  {
    var matching := Filter(alerts, QueryFilter(q));
    SortBySpec(matching, NewestFirst);
    forall a ensures multiset(GetAlerts(alerts, q))[a] == if MatchesQuery(q, a) then multiset(alerts)[a] else 0 {
      FilterMultiset(alerts, QueryFilter(q), a);
    }
    var r := GetAlerts(alerts, q);
    forall i, j | 0 <= i < j < |r| ensures r[i].triggeredAt >= r[j].triggeredAt {
      assert NewestFirst(r[i]) <= NewestFirst(r[j]);
    }
  }

  // ---------------------------------------------------------------------------
  // get_protocol_history
  // ---------------------------------------------------------------------------

  datatype HistoryError = InvalidDays | ProtocolNotFound

  /** One point of a protocol's history; zero metrics are reported as missing. */
  datatype HistoryPoint = HistoryPoint(timestamp: int, tvl: Option<real>, apy: Option<real>)

  function PointOf(s: Snapshot): HistoryPoint {
    HistoryPoint(s.timestamp, Nullify(s.tvl), Nullify(s.apy))
  }

  function Points(rows: seq<Snapshot>): (r: seq<HistoryPoint>)
    ensures |r| == |rows|
    ensures forall k :: 0 <= k < |rows| ==> r[k] == PointOf(rows[k])
  {
    if rows == [] then [] else Points(rows[..|rows| - 1]) + [PointOf(rows[|rows| - 1])]
  }

  /** Protocol p has at least one snapshot. */
  predicate HasSnapshot(snaps: seq<Snapshot>, p: string) {
    exists i :: 0 <= i < |snaps| && snaps[i].protocol == p
  }

  /** The days parameter is accepted from 1 to 365. */
  predicate ValidDays(days: int) {
    1 <= days <= 365
  }

  /** A snapshot of protocol name taken at or after cutoff. */
  predicate InHistory(name: string, cutoff: int, s: Snapshot) {
    s.protocol == name && s.timestamp >= cutoff
  }

  /** The WHERE clause of the history query. */
  function HistoryFilter(name: string, cutoff: int): Snapshot -> bool {
    s => InHistory(name, cutoff, s)
  }

  function ByTimestamp(s: Snapshot): int {
    s.timestamp
  }

  /** The snapshots of protocol name from cutoff on, oldest first, as points. */
  function HistoryRows(snaps: seq<Snapshot>, name: string, cutoff: int): seq<HistoryPoint> {
    Points(SortBy(Filter(snaps, HistoryFilter(name, cutoff)), ByTimestamp))
  }

  /** GET /protocols/{name}/history?days=: the last days of the protocol's snapshots, oldest first. */
  function GetProtocolHistory(snaps: seq<Snapshot>, name: string, days: int, now: int): Result<seq<HistoryPoint>, HistoryError> {
    if !ValidDays(days) then Failure(InvalidDays)
    else if !HasSnapshot(snaps, name) then Failure(ProtocolNotFound)
    else
      Success(HistoryRows(snaps, name, now - days * DAY))
  }

  /** The error cases: days out of range first, then a protocol without any snapshot. */
  lemma GetProtocolHistoryErrors(snaps: seq<Snapshot>, name: string, days: int, now: int)
    ensures !(1 <= days <= 365) ==> GetProtocolHistory(snaps, name, days, now) == Failure(InvalidDays)
    ensures 1 <= days <= 365 ==>
              (GetProtocolHistory(snaps, name, days, now) == Failure(ProtocolNotFound) <==>
               forall i :: 0 <= i < |snaps| ==> snaps[i].protocol != name)
    ensures GetProtocolHistory(snaps, name, days, now).Success? <==>
              1 <= days <= 365 && exists i :: 0 <= i < |snaps| && snaps[i].protocol == name
  {
  }

  /**
   * A history holds one point for each snapshot of the protocol taken within
   * the last days, and nothing else, in ascending timestamp order.
   */
  lemma GetProtocolHistorySpec(snaps: seq<Snapshot>, name: string, days: int, now: int)
    requires GetProtocolHistory(snaps, name, days, now).Success?
    ensures var r := GetProtocolHistory(snaps, name, days, now).value;
            && (forall k :: 0 <= k < |r| ==>
                  exists i :: 0 <= i < |snaps| && InHistory(name, now - days * DAY, snaps[i]) && r[k] == PointOf(snaps[i]))
            && (forall i :: 0 <= i < |snaps| && InHistory(name, now - days * DAY, snaps[i]) ==> PointOf(snaps[i]) in r)
            && |r| == |IndicesWhere(snaps, HistoryFilter(name, now - days * DAY))|
            && (forall k, m :: 0 <= k < m < |r| ==> r[k].timestamp <= r[m].timestamp)
  {
    var cutoff := now - days * DAY;
    assert GetProtocolHistory(snaps, name, days, now).value == HistoryRows(snaps, name, cutoff);
    HistoryRowsSpec(snaps, name, cutoff);
  }

  /** The four facts of a history, on the rows of the query. */
  lemma HistoryRowsSpec(snaps: seq<Snapshot>, name: string, cutoff: int)
    ensures var r := HistoryRows(snaps, name, cutoff);
            && (forall k :: 0 <= k < |r| ==>
                  exists i :: 0 <= i < |snaps| && InHistory(name, cutoff, snaps[i]) && r[k] == PointOf(snaps[i]))
            && (forall i :: 0 <= i < |snaps| && InHistory(name, cutoff, snaps[i]) ==> PointOf(snaps[i]) in r)
            && |r| == |IndicesWhere(snaps, HistoryFilter(name, cutoff))|
            && (forall k, m :: 0 <= k < m < |r| ==> r[k].timestamp <= r[m].timestamp)
  {
    HistoryRowsSound(snaps, name, cutoff);
    HistoryRowsComplete(snaps, name, cutoff);
    HistoryRowsCount(snaps, name, cutoff);
    HistoryRowsSorted(snaps, name, cutoff);
  }

  /** Every point of a history comes from a selected snapshot. */
  lemma HistoryRowsSound(snaps: seq<Snapshot>, name: string, cutoff: int)
    ensures var r := HistoryRows(snaps, name, cutoff);
            forall k :: 0 <= k < |r| ==>
              exists i :: 0 <= i < |snaps| && InHistory(name, cutoff, snaps[i]) && r[k] == PointOf(snaps[i])
  {
    forall k | 0 <= k < |HistoryRows(snaps, name, cutoff)|
      ensures exists i :: 0 <= i < |snaps| && InHistory(name, cutoff, snaps[i]) && HistoryRows(snaps, name, cutoff)[k] == PointOf(snaps[i])
    {
      HistoryPointSource(snaps, name, cutoff, k);
    }
  }

  /** Every selected snapshot has its point in the history. */
  lemma HistoryRowsComplete(snaps: seq<Snapshot>, name: string, cutoff: int)
    ensures forall i :: 0 <= i < |snaps| && InHistory(name, cutoff, snaps[i]) ==> PointOf(snaps[i]) in HistoryRows(snaps, name, cutoff)
  {
    forall i | 0 <= i < |snaps| && InHistory(name, cutoff, snaps[i])
      ensures PointOf(snaps[i]) in HistoryRows(snaps, name, cutoff)
    {
      HistoryPointPresent(snaps, name, cutoff, i);
    }
  }

  /** A history has one point per selected index. */
  lemma HistoryRowsCount(snaps: seq<Snapshot>, name: string, cutoff: int)
    ensures |HistoryRows(snaps, name, cutoff)| == |IndicesWhere(snaps, HistoryFilter(name, cutoff))|
  {
    SortBySpec(Filter(snaps, HistoryFilter(name, cutoff)), ByTimestamp);
    FilterCount(snaps, HistoryFilter(name, cutoff));
  }

  lemma HistoryPointSource(snaps: seq<Snapshot>, name: string, cutoff: int, k: int)
    requires 0 <= k < |HistoryRows(snaps, name, cutoff)|
    ensures exists i :: 0 <= i < |snaps| && InHistory(name, cutoff, snaps[i]) && HistoryRows(snaps, name, cutoff)[k] == PointOf(snaps[i])
  {
    var selected := Filter(snaps, HistoryFilter(name, cutoff));
    var sorted := SortBy(selected, ByTimestamp);
    SortBySpec(selected, ByTimestamp);
    var x := sorted[k];
    assert x in multiset(sorted);
    assert x in selected;
    assert HistoryFilter(name, cutoff)(x);
    var i :| 0 <= i < |snaps| && snaps[i] == x;
    assert HistoryRows(snaps, name, cutoff)[k] == PointOf(x);
  }

  lemma HistoryPointPresent(snaps: seq<Snapshot>, name: string, cutoff: int, i: int)
    requires 0 <= i < |snaps| && InHistory(name, cutoff, snaps[i])
    ensures PointOf(snaps[i]) in HistoryRows(snaps, name, cutoff)
  {
    var selected := Filter(snaps, HistoryFilter(name, cutoff));
    var sorted := SortBy(selected, ByTimestamp);
    SortBySpec(selected, ByTimestamp);
    assert HistoryFilter(name, cutoff)(snaps[i]);
    assert snaps[i] in multiset(sorted);
    var k :| 0 <= k < |sorted| && sorted[k] == snaps[i];
    assert HistoryRows(snaps, name, cutoff)[k] == PointOf(snaps[i]);
  }

  /** A history is in ascending timestamp order. */
  lemma HistoryRowsSorted(snaps: seq<Snapshot>, name: string, cutoff: int)
    ensures var r := HistoryRows(snaps, name, cutoff);
            forall k, m :: 0 <= k < m < |r| ==> r[k].timestamp <= r[m].timestamp
  {
    var sorted := SortBy(Filter(snaps, HistoryFilter(name, cutoff)), ByTimestamp);
    SortBySpec(Filter(snaps, HistoryFilter(name, cutoff)), ByTimestamp);
    var r := Points(sorted);
    forall k, m | 0 <= k < m < |r| ensures r[k].timestamp <= r[m].timestamp {
      assert ByTimestamp(sorted[k]) <= ByTimestamp(sorted[m]);
    }
  }

  // ---------------------------------------------------------------------------
  // get_protocols
  // ---------------------------------------------------------------------------

  /** One entry of GET /protocols; zero metrics are reported as missing. */
  datatype ProtocolSummary = ProtocolSummary(
    name: string,
    tvl: Option<real>,
    apy: Option<real>,
    utilization: Option<real>,
    status: ProtocolStatus)

  /** e is built from the newest snapshot of its protocol and that protocol's status. */
  ghost predicate SummaryFor(snaps: seq<Snapshot>, alerts: seq<Alert>, e: ProtocolSummary) {
    var latest := LatestSnapshot(snaps, e.name, None);
    && latest.Some? && IsLatest(snaps, e.name, None, latest.value)
    && e.tvl == Nullify(latest.value.tvl)
    && e.apy == Nullify(latest.value.apy)
    && e.utilization == Nullify(latest.value.utilization)
    && e.status == StatusOf(alerts, e.name)
  }

  /** Protocol p has an entry in the list r. */
  predicate Listed(r: seq<ProtocolSummary>, p: string) {
    exists k :: 0 <= k < |r| && r[k].name == p
  }

  /** The entry for protocol p, built from its newest snapshot and its status. */
  function SummaryOf(p: string, latest: Snapshot, status: ProtocolStatus): ProtocolSummary {
    ProtocolSummary(p, Nullify(latest.tvl), Nullify(latest.apy), Nullify(latest.utilization), status)
  }

  /** A name that occurs in the table has a newest snapshot, and the entry built from it is that protocol's summary. */
  lemma NamedProtocolHasLatest(snaps: seq<Snapshot>, alerts: seq<Alert>, p: string)
    requires p in ProtocolNames(snaps)
    ensures LatestSnapshot(snaps, p, None).Some?
    ensures SummaryFor(snaps, alerts, SummaryOf(p, LatestSnapshot(snaps, p, None).value, StatusOf(alerts, p)))
  {
    LatestSnapshotSpec(snaps, p, None);
    var j :| 0 <= j < |ProtocolNames(snaps)| && ProtocolNames(snaps)[j] == p;
    assert snaps[j].protocol == p && Within(snaps[j], None);
  }

  /** A protocol has a snapshot exactly when its name is among the distinct names. */
  lemma HasSnapshotIsNamed(snaps: seq<Snapshot>, p: string)
    ensures HasSnapshot(snaps, p) <==> p in Distinct(ProtocolNames(snaps))
  {
    var names := ProtocolNames(snaps);
    if HasSnapshot(snaps, p) {
      var j :| 0 <= j < |snaps| && snaps[j].protocol == p;
      assert names[j] == p;
    }
    if p in names {
      var j :| 0 <= j < |names| && names[j] == p;
      assert snaps[j].protocol == p;
    }
  }

  /** A list naming the distinct protocol names in order lists exactly the protocols with a snapshot, each once. */
  lemma ListedNames(snaps: seq<Snapshot>, r: seq<ProtocolSummary>)
    requires |r| == |Distinct(ProtocolNames(snaps))|
    requires forall k :: 0 <= k < |r| ==> r[k].name == Distinct(ProtocolNames(snaps))[k]
    ensures forall k, m :: 0 <= k < m < |r| ==> r[k].name != r[m].name
    ensures forall p :: Listed(r, p) <==> HasSnapshot(snaps, p)
  {
    var names := Distinct(ProtocolNames(snaps));
    forall p
      ensures Listed(r, p) <==> HasSnapshot(snaps, p)
    {
      HasSnapshotIsNamed(snaps, p);
      if p in names {
        var k :| 0 <= k < |names| && names[k] == p;
        assert r[k].name == p;
      }
      if Listed(r, p) {
        var k :| 0 <= k < |r| && r[k].name == p;
        assert names[k] == p;
      }
    }
  }

  /**
   * GET /protocols: one entry per distinct protocol name, in order of first
   * appearance, each built from that protocol's newest snapshot.
   */
  method GetProtocols(snaps: seq<Snapshot>, alerts: seq<Alert>) returns (r: seq<ProtocolSummary>)
    ensures |r| == |Distinct(ProtocolNames(snaps))|
    ensures forall k :: 0 <= k < |r| ==> r[k].name == Distinct(ProtocolNames(snaps))[k] && SummaryFor(snaps, alerts, r[k])
    ensures forall k, m :: 0 <= k < m < |r| ==> r[k].name != r[m].name
    ensures forall p :: Listed(r, p) <==> HasSnapshot(snaps, p)
  {
    var names := Distinct(ProtocolNames(snaps));
    r := [];
    var i := 0;
    while i < |names|
      invariant 0 <= i <= |names|
      invariant |r| == i
      invariant forall k :: 0 <= k < i ==> r[k].name == names[k] && SummaryFor(snaps, alerts, r[k])
    {
      var p := names[i];
      NamedProtocolHasLatest(snaps, alerts, p);
      var latest := LatestSnapshot(snaps, p, None);
      if latest.Some? {
        var status := StatusOf(alerts, p);
        r := r + [SummaryOf(p, latest.value, status)];
      }
      i := i + 1;
    }
    ListedNames(snaps, r);
  }

  // ---------------------------------------------------------------------------
  // health_check
  // ---------------------------------------------------------------------------

  datatype Health = Health(protocolsMonitored: nat, activeAlerts: nat)

  /** GET /: the number of distinct protocol names and of unresolved alerts. */
  function HealthCheck(snaps: seq<Snapshot>, alerts: seq<Alert>): Health {
    Health(|Distinct(ProtocolNames(snaps))|, |Filter(alerts, IsOpen)|)
  }

  /** The two counts of the health summary, stated on the tables themselves. */
  lemma HealthCheckCounts(snaps: seq<Snapshot>, alerts: seq<Alert>)
    ensures HealthCheck(snaps, alerts).protocolsMonitored == |set i | 0 <= i < |snaps| :: snaps[i].protocol|
    ensures HealthCheck(snaps, alerts).activeAlerts == |set i | 0 <= i < |alerts| && alerts[i].resolvedAt.None?|
  {
    var names := Distinct(ProtocolNames(snaps));
    NoDuplicatesCard(names);
    assert (set x | x in names) == (set i | 0 <= i < |snaps| :: snaps[i].protocol) by {
      forall x ensures x in names <==> x in (set i | 0 <= i < |snaps| :: snaps[i].protocol) {
        if x in names {
          var k :| 0 <= k < |ProtocolNames(snaps)| && ProtocolNames(snaps)[k] == x;
        }
        if x in (set i | 0 <= i < |snaps| :: snaps[i].protocol) {
          var i :| 0 <= i < |snaps| && snaps[i].protocol == x;
          assert ProtocolNames(snaps)[i] == x;
        }
      }
    }
    FilterCount(alerts, IsOpen);
    var a := IndicesWhere(alerts, IsOpen);
    var b := set i | 0 <= i < |alerts| && alerts[i].resolvedAt.None?;
    forall i ensures i in a <==> i in b {
    }
    assert a == b;
  }
}
