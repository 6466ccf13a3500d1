/**
 * The anomaly detector: three threshold rules over the latest snapshots of
 * each recently active protocol, and the deduplicating alert insert.
 */
module AnomalyDetector {
  import opened Wrappers
  import opened Models
  import opened Collections

  /** The thresholds and the lookback window the detector is built with. */
  datatype Config = Config(
    tvlDropThreshold: real,
    apyMinThreshold: real,
    utilizationMaxThreshold: real,
    tvlLookbackHours: nat)

  /** The settings defaults: a 20% drop, 2% APY, 95% utilization, a 24-hour lookback. */
  const DefaultConfig: Config := Config(0.20, 2.0, 0.95, 24)

  /** The protocols whose snapshots carry a utilization rate. */
  const LendingProtocols: set<string> := {"felix"}

  /** A protocol is active when it has a snapshot in the last 48 hours. */
  const ActiveWindowHours: int := 48

  /** What a rule asks _create_alert to insert. */
  datatype Candidate = Candidate(protocol: string, alertType: AlertType, severity: Severity, message: Message)

  function CandidateKey(c: Candidate): AlertKey {
    AlertKey(c.protocol, c.alertType)
  }

  // ---------------------------------------------------------------------------
  // Snapshot queries
  // ---------------------------------------------------------------------------

  /** The timestamp filter of a query: none, or `timestamp <= cutoff`. */
  predicate Within(s: Snapshot, cutoff: Option<int>) {
    cutoff.None? || s.timestamp <= cutoff.value
  }

  /** s is a newest snapshot of protocol p among those within the cutoff. */
  ghost predicate IsLatest(snaps: seq<Snapshot>, p: string, cutoff: Option<int>, s: Snapshot) {
    && s in snaps && s.protocol == p && Within(s, cutoff)
    && forall i :: 0 <= i < |snaps| && snaps[i].protocol == p && Within(snaps[i], cutoff) ==> snaps[i].timestamp <= s.timestamp
  }

  /** No snapshot of protocol p lies within the cutoff. */
  ghost predicate NoneWithin(snaps: seq<Snapshot>, p: string, cutoff: Option<int>) {
    forall i :: 0 <= i < |snaps| && snaps[i].protocol == p ==> !Within(snaps[i], cutoff)
  }

  /**
   * `filter(protocol_name == p, timestamp <= cutoff).order_by(desc(timestamp)).first()`:
   * a newest qualifying snapshot, or None when no snapshot qualifies.
   */
  function LatestSnapshot(snaps: seq<Snapshot>, p: string, cutoff: Option<int>): Option<Snapshot> {
    if snaps == [] then None
    else
      var best := LatestSnapshot(snaps[..|snaps| - 1], p, cutoff);
      var s := snaps[|snaps| - 1];
      if s.protocol == p && Within(s, cutoff) && (best.None? || best.value.timestamp < s.timestamp)
      then Some(s)
      else best
  }

  /** The query returns a newest qualifying snapshot, and returns None exactly when none qualifies. */
  lemma {:induction false} LatestSnapshotSpec(snaps: seq<Snapshot>, p: string, cutoff: Option<int>)
    ensures LatestSnapshot(snaps, p, cutoff).Some? ==> IsLatest(snaps, p, cutoff, LatestSnapshot(snaps, p, cutoff).value)
    ensures LatestSnapshot(snaps, p, cutoff).None? <==> NoneWithin(snaps, p, cutoff)
  {
    if snaps != [] {
      var init := snaps[..|snaps| - 1];
      LatestSnapshotSpec(init, p, cutoff);
      assert forall i :: 0 <= i < |init| ==> snaps[i] == init[i];
    }
  }

  /** Under the uniqueness constraint there is only one newest snapshot. */
  lemma LatestIsUnique(snaps: seq<Snapshot>, p: string, cutoff: Option<int>, s1: Snapshot, s2: Snapshot)
    requires UniqueKeys(snaps)
    requires IsLatest(snaps, p, cutoff, s1) && IsLatest(snaps, p, cutoff, s2)
    ensures s1 == s2
  {
    var i :| 0 <= i < |snaps| && snaps[i] == s1;
    var j :| 0 <= j < |snaps| && snaps[j] == s2;
    assert s1.timestamp == s2.timestamp && s1.protocol == s2.protocol;
  }

  /** Under the uniqueness constraint the query returns exactly the newest snapshot. */
  lemma LatestSnapshotExact(snaps: seq<Snapshot>, p: string, cutoff: Option<int>, s: Snapshot)
    requires UniqueKeys(snaps)
    requires IsLatest(snaps, p, cutoff, s)
    ensures LatestSnapshot(snaps, p, cutoff) == Some(s)
  {
    LatestSnapshotSpec(snaps, p, cutoff);
    var r := LatestSnapshot(snaps, p, cutoff);
    var k :| 0 <= k < |snaps| && snaps[k] == s;
    assert r.Some?;
    LatestIsUnique(snaps, p, cutoff, r.value, s);
  }

  /** Some snapshot of protocol p is at most 48 hours old. */
  ghost predicate RecentlySeen(snaps: seq<Snapshot>, p: string, now: int) {
    exists i :: 0 <= i < |snaps| && snaps[i].protocol == p && snaps[i].timestamp >= now - ActiveWindowHours * HOUR
  }

  /**
   * _get_active_protocols: the distinct protocol names with a snapshot at or
   * after now - 48h, each once.
   */
  function ActiveProtocols(snaps: seq<Snapshot>, now: int): (r: seq<string>)
    ensures NoDuplicates(r)
    ensures forall p :: p in r <==> RecentlySeen(snaps, p, now)
  {
    var cutoff := now - ActiveWindowHours * HOUR;
    var recent := Filter(snaps, (s: Snapshot) => s.timestamp >= cutoff);
    var names := ProtocolNames(recent);
    assert forall p :: p in names <==> RecentlySeen(snaps, p, now) by {
      forall p ensures p in names <==> RecentlySeen(snaps, p, now) {
        if p in names {
          var k :| 0 <= k < |names| && names[k] == p;
          assert recent[k] in recent;
          var j :| 0 <= j < |snaps| && snaps[j] == recent[k];
        }
        if RecentlySeen(snaps, p, now) {
          var i :| 0 <= i < |snaps| && snaps[i].protocol == p && snaps[i].timestamp >= cutoff;
          assert snaps[i] in recent;
          var k :| 0 <= k < |recent| && recent[k] == snaps[i];
          assert names[k] == p;
        }
      }
    }
    Distinct(names)
  }

  // ---------------------------------------------------------------------------
  // The three rules
  // ---------------------------------------------------------------------------

  /** (old - current) / old: the fraction of the old TVL that was lost. */
  function DropRatio(oldTvl: real, currentTvl: real): real
    requires oldTvl != 0.0
  {
    (oldTvl - currentTvl) / oldTvl
  }

  /** The instant the TVL rule looks back to. */
  function LookbackCutoff(cfg: Config, now: int): int {
    now - cfg.tvlLookbackHours * HOUR
  }

  /**
   * The TVL rule fires on the pair (latest, old): the newest snapshot overall
   * and the newest at or before the lookback instant, both with a non-zero
   * TVL, and a drop strictly above the threshold.
   */
  ghost predicate TvlDropFires(cfg: Config, snaps: seq<Snapshot>, p: string, now: int, latest: Snapshot, past: Snapshot) {
    && IsLatest(snaps, p, None, latest)
    && IsLatest(snaps, p, Some(LookbackCutoff(cfg, now)), past)
    && Present(latest.tvl) && Present(past.tvl)
    && DropRatio(past.tvl.value, latest.tvl.value) > cfg.tvlDropThreshold
  }

  function TvlDropCandidate(cfg: Config, p: string, latestTvl: real, oldTvl: real): Candidate
    requires oldTvl != 0.0
  {
    Candidate(p, TvlDrop, Critical,
      TvlDropMessage(DropRatio(oldTvl, latestTvl), cfg.tvlLookbackHours, oldTvl, latestTvl))
  }

  /** _check_tvl_drop's decision: the candidate it hands to _create_alert, if any. */
  function TvlDropRule(cfg: Config, snaps: seq<Snapshot>, p: string, now: int): (r: Option<Candidate>)
    ensures r.Some? ==> r.value.protocol == p && r.value.alertType == TvlDrop && r.value.severity == Critical
  {
    var latest := LatestSnapshot(snaps, p, None);
    if latest.None? || !Present(latest.value.tvl) then None
    else
      var past := LatestSnapshot(snaps, p, Some(LookbackCutoff(cfg, now)));
      if past.None? || !Present(past.value.tvl) then None
      else
        var currentTvl, oldTvl := latest.value.tvl.value, past.value.tvl.value;
        if oldTvl == 0.0 then None
        else if DropRatio(oldTvl, currentTvl) > cfg.tvlDropThreshold then
          Some(TvlDropCandidate(cfg, p, currentTvl, oldTvl))
        else None
  }

  /** The TVL rule only fires on a (latest, old) pair that satisfies TvlDropFires, and reports both values. */
  lemma TvlDropRuleSound(cfg: Config, snaps: seq<Snapshot>, p: string, now: int)
    requires TvlDropRule(cfg, snaps, p, now).Some?
    ensures exists l, o :: TvlDropFires(cfg, snaps, p, now, l, o)
                        && TvlDropRule(cfg, snaps, p, now).value == TvlDropCandidate(cfg, p, l.tvl.value, o.tvl.value)
  {
    LatestSnapshotSpec(snaps, p, None);
    LatestSnapshotSpec(snaps, p, Some(LookbackCutoff(cfg, now)));
    var l := LatestSnapshot(snaps, p, None).value;
    var o := LatestSnapshot(snaps, p, Some(LookbackCutoff(cfg, now))).value;
    assert TvlDropFires(cfg, snaps, p, now, l, o);
  }

  /** With unique (protocol, timestamp) keys the TVL rule fires exactly when TvlDropFires holds. */
  lemma TvlDropRuleExact(cfg: Config, snaps: seq<Snapshot>, p: string, now: int, l: Snapshot, o: Snapshot)
    requires UniqueKeys(snaps)
    requires IsLatest(snaps, p, None, l) && IsLatest(snaps, p, Some(LookbackCutoff(cfg, now)), o)
    ensures TvlDropRule(cfg, snaps, p, now).Some? <==> TvlDropFires(cfg, snaps, p, now, l, o)
  {
    LatestSnapshotExact(snaps, p, None, l);
    LatestSnapshotExact(snaps, p, Some(LookbackCutoff(cfg, now)), o);
  }

  /** Each insufficient-data case makes the TVL rule return nothing (and never fail). */
  lemma TvlDropRuleSkips(cfg: Config, snaps: seq<Snapshot>, p: string, now: int)
    ensures (forall i :: 0 <= i < |snaps| ==> snaps[i].protocol != p) ==> TvlDropRule(cfg, snaps, p, now).None?
    ensures (forall l :: IsLatest(snaps, p, None, l) ==> !Present(l.tvl)) ==> TvlDropRule(cfg, snaps, p, now).None?
    ensures (forall i :: 0 <= i < |snaps| && snaps[i].protocol == p ==> snaps[i].timestamp > LookbackCutoff(cfg, now)) ==>
              TvlDropRule(cfg, snaps, p, now).None?
    ensures (forall o :: IsLatest(snaps, p, Some(LookbackCutoff(cfg, now)), o) ==> !Present(o.tvl)) ==>
              TvlDropRule(cfg, snaps, p, now).None?
  {
    LatestSnapshotSpec(snaps, p, None);
    LatestSnapshotSpec(snaps, p, Some(LookbackCutoff(cfg, now)));
  }

  /**
   * With a positive old TVL and a non-negative threshold, an unchanged or
   * rising TVL never fires, and neither does a drop exactly at the threshold.
   */
  lemma TvlDropIsStrict(cfg: Config, snaps: seq<Snapshot>, p: string, now: int, l: Snapshot, o: Snapshot)
    requires IsLatest(snaps, p, None, l) && IsLatest(snaps, p, Some(LookbackCutoff(cfg, now)), o)
    requires UniqueKeys(snaps)
    requires Present(l.tvl) && Present(o.tvl) && o.tvl.value > 0.0
    requires cfg.tvlDropThreshold >= 0.0
    requires l.tvl.value >= o.tvl.value || DropRatio(o.tvl.value, l.tvl.value) == cfg.tvlDropThreshold
    ensures TvlDropRule(cfg, snaps, p, now).None?
  {
    var ov, lv := o.tvl.value, l.tvl.value;
    if lv >= ov {
      assert ov - lv <= 0.0;
      assert (ov - lv) / ov <= 0.0;
    }
    TvlDropRuleExact(cfg, snaps, p, now, l, o);
  }

  /** The APY rule fires on the newest snapshot when its APY is non-zero and strictly below the minimum. */
  ghost predicate ApyLowFires(cfg: Config, snaps: seq<Snapshot>, p: string, latest: Snapshot) {
    IsLatest(snaps, p, None, latest) && Present(latest.apy) && latest.apy.value < cfg.apyMinThreshold
  }

  /** _check_apy_low's decision. */
  function ApyLowRule(cfg: Config, snaps: seq<Snapshot>, p: string): (r: Option<Candidate>)
    ensures r.Some? ==> r.value.protocol == p && r.value.alertType == ApyLow && r.value.severity == Warning
  {
    var latest := LatestSnapshot(snaps, p, None);
    if latest.None? || !Present(latest.value.apy) then None
    else
      var apy := latest.value.apy.value;
      if apy < cfg.apyMinThreshold then
        Some(Candidate(p, ApyLow, Warning, ApyLowMessage(apy, cfg.apyMinThreshold)))
      else None
  }

  /** The APY rule only fires on a newest snapshot that satisfies ApyLowFires, and reports its APY. */
  lemma ApyLowRuleSound(cfg: Config, snaps: seq<Snapshot>, p: string)
    requires ApyLowRule(cfg, snaps, p).Some?
    ensures exists l :: ApyLowFires(cfg, snaps, p, l)
                     && ApyLowRule(cfg, snaps, p).value == Candidate(p, ApyLow, Warning, ApyLowMessage(l.apy.value, cfg.apyMinThreshold))
  {
    LatestSnapshotSpec(snaps, p, None);
    assert ApyLowFires(cfg, snaps, p, LatestSnapshot(snaps, p, None).value);
  }

  /** With unique keys the APY rule fires exactly when ApyLowFires holds for the newest snapshot. */
  lemma ApyLowRuleExact(cfg: Config, snaps: seq<Snapshot>, p: string, l: Snapshot)
    requires UniqueKeys(snaps)
    requires IsLatest(snaps, p, None, l)
    ensures ApyLowRule(cfg, snaps, p).Some? <==> ApyLowFires(cfg, snaps, p, l)
  {
    LatestSnapshotExact(snaps, p, None, l);
  }

  /** The utilization rule fires on the newest snapshot when its rate is non-zero and strictly above the maximum. */
  ghost predicate UtilizationHighFires(cfg: Config, snaps: seq<Snapshot>, p: string, latest: Snapshot) {
    && IsLatest(snaps, p, None, latest) && Present(latest.utilization)
    && latest.utilization.value > cfg.utilizationMaxThreshold
  }

  /** _check_utilization_high's decision (the lending-only guard is the caller's). */
  function UtilizationHighRule(cfg: Config, snaps: seq<Snapshot>, p: string): (r: Option<Candidate>)
    ensures r.Some? ==> r.value.protocol == p && r.value.alertType == UtilizationHigh && r.value.severity == Warning
  {
    var latest := LatestSnapshot(snaps, p, None);
    if latest.None? || !Present(latest.value.utilization) then None
    else
      var util := latest.value.utilization.value;
      if util > cfg.utilizationMaxThreshold then
        Some(Candidate(p, UtilizationHigh, Warning, UtilizationHighMessage(util, cfg.utilizationMaxThreshold)))
      else None
  }

  /** The utilization rule only fires on a newest snapshot that satisfies UtilizationHighFires. */
  lemma UtilizationHighRuleSound(cfg: Config, snaps: seq<Snapshot>, p: string)
    requires UtilizationHighRule(cfg, snaps, p).Some?
    ensures exists l :: UtilizationHighFires(cfg, snaps, p, l)
                     && UtilizationHighRule(cfg, snaps, p).value
                        == Candidate(p, UtilizationHigh, Warning, UtilizationHighMessage(l.utilization.value, cfg.utilizationMaxThreshold))
  {
    LatestSnapshotSpec(snaps, p, None);
    assert UtilizationHighFires(cfg, snaps, p, LatestSnapshot(snaps, p, None).value);
  }

  /** With unique keys the utilization rule fires exactly when UtilizationHighFires holds. */
  lemma UtilizationHighRuleExact(cfg: Config, snaps: seq<Snapshot>, p: string, l: Snapshot)
    requires UniqueKeys(snaps)
    requires IsLatest(snaps, p, None, l)
    ensures UtilizationHighRule(cfg, snaps, p).Some? <==> UtilizationHighFires(cfg, snaps, p, l)
  {
    LatestSnapshotExact(snaps, p, None, l);
  }

  // ---------------------------------------------------------------------------
  // Candidates of a pass
  // ---------------------------------------------------------------------------

  function OptionToSeq(o: Option<Candidate>): seq<Candidate> {
    if o.Some? then [o.value] else []
  }

  /** The position of a rule within a protocol's turn: tvl, then apy, then utilization. */
  function RuleOrder(t: AlertType): nat {
    match t
    case TvlDrop => 0
    case ApyLow => 1
    case UtilizationHigh => 2
  }

  /** The candidates detect_all raises for one protocol, in rule order. */
  function ProtocolCandidates(cfg: Config, snaps: seq<Snapshot>, p: string, now: int): seq<Candidate> {
    OptionToSeq(TvlDropRule(cfg, snaps, p, now))
      + OptionToSeq(ApyLowRule(cfg, snaps, p))
      + (if p in LendingProtocols then OptionToSeq(UtilizationHighRule(cfg, snaps, p)) else [])
  }

  /**
   * A protocol's candidate of each type is what that type's rule decided,
   * with the rule's severity; a utilization candidate needs a lending protocol.
   */
  lemma ProtocolCandidatesFromRules(cfg: Config, snaps: seq<Snapshot>, p: string, now: int, c: Candidate)
    requires c in ProtocolCandidates(cfg, snaps, p, now)
    ensures c.alertType == TvlDrop ==> TvlDropRule(cfg, snaps, p, now) == Some(c) && c.severity == Critical
    ensures c.alertType == ApyLow ==> ApyLowRule(cfg, snaps, p) == Some(c) && c.severity == Warning
    ensures c.alertType == UtilizationHigh ==>
              p in LendingProtocols && UtilizationHighRule(cfg, snaps, p) == Some(c) && c.severity == Warning
  {
  }

  /** detect_all's per-protocol step as a value: the candidates each protocol's rules raise. */
  function ProtocolRules(cfg: Config, snaps: seq<Snapshot>, now: int): string -> seq<Candidate> {
    p => ProtocolCandidates(cfg, snaps, p, now)
  }

  /** Every candidate raised for protocol p names p. */
  ghost predicate ForOwnProtocol(rules: string -> seq<Candidate>) {
    forall p, c :: c in rules(p) ==> c.protocol == p
  }

  /** The candidates raised for one protocol come in strictly increasing rule order. */
  ghost predicate InRuleOrder(rules: string -> seq<Candidate>) {
    forall p, i, j :: 0 <= i < j < |rules(p)| ==> RuleOrder(rules(p)[i].alertType) < RuleOrder(rules(p)[j].alertType)
  }

  /**
   * A protocol's candidates all name that protocol and come in rule order,
   * so no two of them share an alert type.
   */
  lemma ProtocolCandidatesShape(cfg: Config, snaps: seq<Snapshot>, p: string, now: int)
    ensures forall c :: c in ProtocolCandidates(cfg, snaps, p, now) ==> c.protocol == p
    ensures var r := ProtocolCandidates(cfg, snaps, p, now);
            forall i, j :: 0 <= i < j < |r| ==> RuleOrder(r[i].alertType) < RuleOrder(r[j].alertType)
  {
  }

  lemma ProtocolRulesShape(cfg: Config, snaps: seq<Snapshot>, now: int)
    ensures ForOwnProtocol(ProtocolRules(cfg, snaps, now))
    ensures InRuleOrder(ProtocolRules(cfg, snaps, now))
  {
    forall p ensures var r := ProtocolCandidates(cfg, snaps, p, now);
                     forall i, j :: 0 <= i < j < |r| ==> RuleOrder(r[i].alertType) < RuleOrder(r[j].alertType)
    {
      ProtocolCandidatesShape(cfg, snaps, p, now);
    }
  }

  /** The candidates raised for the first n protocols of ps: protocol by protocol. */
  function CandidatesUpTo(rules: string -> seq<Candidate>, ps: seq<string>, n: nat): seq<Candidate>
    requires n <= |ps|
  {
    if n == 0 then [] else CandidatesUpTo(rules, ps, n - 1) + rules(ps[n - 1])
  }

  /** The candidates of a pass over the protocols ps. */
  function AllCandidates(cfg: Config, snaps: seq<Snapshot>, ps: seq<string>, now: int): seq<Candidate> {
    CandidatesUpTo(ProtocolRules(cfg, snaps, now), ps, |ps|)
  }

  /** Each candidate raised for the first n protocols was raised for one of them. */
  lemma {:induction false} CandidatesUpToSource(rules: string -> seq<Candidate>, ps: seq<string>, n: nat, c: Candidate)
    requires n <= |ps|
    requires c in CandidatesUpTo(rules, ps, n)
    ensures exists k :: 0 <= k < n && c in rules(ps[k])
  {
    if n > 0 {
      if c in CandidatesUpTo(rules, ps, n - 1) {
        CandidatesUpToSource(rules, ps, n - 1, c);
      } else {
        assert c in rules(ps[n - 1]);
      }
    }
  }

  predicate KeysDistinct(cs: seq<Candidate>) {
    forall i, j :: 0 <= i < j < |cs| ==> CandidateKey(cs[i]) != CandidateKey(cs[j])
  }

  /** Joining the candidates of earlier protocols with those of a new protocol keeps keys distinct. */
  lemma KeysDistinctAppend(a: seq<Candidate>, b: seq<Candidate>, earlier: seq<string>, p: string)
    requires KeysDistinct(a) && p !in earlier
    requires forall c :: c in a ==> c.protocol in earlier
    requires forall c :: c in b ==> c.protocol == p
    requires forall i, j :: 0 <= i < j < |b| ==> RuleOrder(b[i].alertType) < RuleOrder(b[j].alertType)
    ensures KeysDistinct(a + b)
  {
    var cs := a + b;
    forall i, j | 0 <= i < j < |cs| ensures CandidateKey(cs[i]) != CandidateKey(cs[j]) {
      if j < |a| {
        assert cs[i] == a[i] && cs[j] == a[j];
      } else if i >= |a| {
        assert cs[i] == b[i - |a|] && cs[j] == b[j - |a|];
      } else {
        assert cs[i] == a[i] && a[i] in a;
        assert cs[j] == b[j - |a|] && b[j - |a|] in b;
      }
    }
  }

  /** Over distinct protocols, no two candidates raised for the first n share a dedup key. */
  lemma {:induction false} CandidatesUpToKeysDistinct(rules: string -> seq<Candidate>, ps: seq<string>, n: nat)
    requires n <= |ps| && NoDuplicates(ps)
    requires ForOwnProtocol(rules) && InRuleOrder(rules)
    ensures KeysDistinct(CandidatesUpTo(rules, ps, n))
  {
    if n > 0 {
      CandidatesUpToKeysDistinct(rules, ps, n - 1);
      var a := CandidatesUpTo(rules, ps, n - 1);
      forall c | c in a ensures c.protocol in ps[..n - 1] {
        CandidatesUpToSource(rules, ps, n - 1, c);
        var k :| 0 <= k < n - 1 && c in rules(ps[k]);
        assert ps[..n - 1][k] == ps[k];
      }
      assert ps[n - 1] !in ps[..n - 1];
      KeysDistinctAppend(a, rules(ps[n - 1]), ps[..n - 1], ps[n - 1]);
    }
  }

  // ---------------------------------------------------------------------------
  // Alert creation with dedup, and a whole pass, as functions of the alert table
  // ---------------------------------------------------------------------------

  /** The row _create_alert inserts: next id, triggered now, not resolved. */
  function NewAlert(alerts: seq<Alert>, c: Candidate, now: int): Alert {
    Alert(|alerts| + 1, c.protocol, c.alertType, c.severity, Some(c.message), now, None)
  }

  /**
   * The alert table after _create_alert for candidate c: unchanged when an
   * open alert with the same key exists or the insert fails (fails names the
   * keys whose insert raises and is rolled back), otherwise one row more.
   */
  function TryCreate(alerts: seq<Alert>, c: Candidate, now: int, fails: set<AlertKey>): (r: seq<Alert>)
    ensures HasOpen(alerts, CandidateKey(c)) ==> r == alerts
    ensures CandidateKey(c) !in fails ==> HasOpen(r, CandidateKey(c))
    ensures CandidateKey(c) in fails ==> r == alerts
    ensures AtMostOneOpenPerKey(alerts) ==> AtMostOneOpenPerKey(r)
  {
    if HasOpen(alerts, CandidateKey(c)) || CandidateKey(c) in fails then alerts
    else
      var r := alerts + [NewAlert(alerts, c, now)];
      assert IsOpen(r[|alerts|]) && KeyOf(r[|alerts|]) == CandidateKey(c);
      r
  }

  /** The alert table after trying every candidate of cs in order. */
  function ApplyAll(alerts: seq<Alert>, cs: seq<Candidate>, now: int, fails: set<AlertKey>): seq<Alert> {
    if cs == [] then alerts
    else TryCreate(ApplyAll(alerts, cs[..|cs| - 1], now, fails), cs[|cs| - 1], now, fails)
  }

  /**
   * A pass only appends: the old rows stay as they were, ids stay sequential,
   * every new row is open and triggered now, and the dedup invariant is kept.
   */
  lemma {:induction false} ApplyAllAppends(alerts: seq<Alert>, cs: seq<Candidate>, now: int, fails: set<AlertKey>)
    ensures var r := ApplyAll(alerts, cs, now, fails);
            && |alerts| <= |r| && r[..|alerts|] == alerts
            && (IdsSequential(alerts) ==> IdsSequential(r))
            && (forall k :: |alerts| <= k < |r| ==> r[k].triggeredAt == now && IsOpen(r[k]))
            && (AtMostOneOpenPerKey(alerts) ==> AtMostOneOpenPerKey(r))
  {
    if cs != [] {
      ApplyAllAppends(alerts, cs[..|cs| - 1], now, fails);
    }
  }

  /** A detection pass over the snapshot table, as the alert table it leaves. */
  function DetectionPass(cfg: Config, snaps: seq<Snapshot>, alerts: seq<Alert>, now: int, fails: set<AlertKey>): seq<Alert> {
    ApplyAll(alerts, AllCandidates(cfg, snaps, ActiveProtocols(snaps, now), now), now, fails)
  }

  /** Appending a row never removes an open alert. */
  lemma TryCreateKeepsOpen(alerts: seq<Alert>, c: Candidate, now: int, fails: set<AlertKey>, k: AlertKey)
    requires HasOpen(alerts, k)
    ensures HasOpen(TryCreate(alerts, c, now, fails), k)
  {
    var i :| 0 <= i < |alerts| && IsOpen(alerts[i]) && KeyOf(alerts[i]) == k;
    assert TryCreate(alerts, c, now, fails)[i] == alerts[i];
  }

  /** After a pass, every candidate whose insert did not fail is covered by an open alert. */
  lemma {:induction false} ApplyAllCovers(alerts: seq<Alert>, cs: seq<Candidate>, now: int, fails: set<AlertKey>)
    ensures forall c :: c in cs && CandidateKey(c) !in fails ==> HasOpen(ApplyAll(alerts, cs, now, fails), CandidateKey(c))
  {
    if cs != [] {
      var init, last := cs[..|cs| - 1], cs[|cs| - 1];
      ApplyAllCovers(alerts, init, now, fails);
      var prev := ApplyAll(alerts, init, now, fails);
      forall c | c in cs && CandidateKey(c) !in fails
        ensures HasOpen(ApplyAll(alerts, cs, now, fails), CandidateKey(c))
      {
        if c != last {
          assert c in init;
          TryCreateKeepsOpen(prev, last, now, fails, CandidateKey(c));
        }
      }
    }
  }

  /** Candidates that are all already covered by open alerts create nothing. */
  lemma {:induction false} ApplyAllNoop(alerts: seq<Alert>, cs: seq<Candidate>, now: int, fails: set<AlertKey>)
    requires forall c :: c in cs ==> HasOpen(alerts, CandidateKey(c))
    ensures ApplyAll(alerts, cs, now, fails) == alerts
  {
    if cs != [] {
      var init := cs[..|cs| - 1];
      assert forall c :: c in init ==> c in cs;
      ApplyAllNoop(alerts, init, now, fails);
    }
  }

  /**
   * The row at position k was created for candidate c: it is c's alert with
   * id k + 1, c's key had no open alert before the pass, and its insert did
   * not fail.
   */
  ghost predicate CreatedFor(alerts: seq<Alert>, now: int, fails: set<AlertKey>, k: int, row: Alert, c: Candidate) {
    && row == Alert(k + 1, c.protocol, c.alertType, c.severity, Some(c.message), now, None)
    && !HasOpen(alerts, CandidateKey(c)) && CandidateKey(c) !in fails
  }

  /**
   * Every row a pass adds was created for one of its candidates: the
   * candidate the row at position k was created for.
   */
  lemma {:induction false} SourceOf(alerts: seq<Alert>, cs: seq<Candidate>, now: int, fails: set<AlertKey>, k: int)
    returns (c: Candidate)
    requires |alerts| <= k < |ApplyAll(alerts, cs, now, fails)|
    ensures c in cs && CreatedFor(alerts, now, fails, k, ApplyAll(alerts, cs, now, fails)[k], c)
  {
    assert cs != [];
    var init, last := cs[..|cs| - 1], cs[|cs| - 1];
    var prev := ApplyAll(alerts, init, now, fails);
    var r := ApplyAll(alerts, cs, now, fails);
    assert r == TryCreate(prev, last, now, fails);
    if k < |prev| {
      c := SourceOf(alerts, init, now, fails, k);
      assert r[k] == prev[k];
    } else {
      assert r == prev + [NewAlert(prev, last, now)];
      ApplyAllKeepsOpen(alerts, init, now, fails, CandidateKey(last));
      c := last;
    }
  }

  /** Later rows never close an open alert. */
  lemma ApplyAllKeepsOpen(alerts: seq<Alert>, cs: seq<Candidate>, now: int, fails: set<AlertKey>, k: AlertKey)
    ensures HasOpen(alerts, k) ==> HasOpen(ApplyAll(alerts, cs, now, fails), k)
  {
    if HasOpen(alerts, k) {
      ApplyAllAppends(alerts, cs, now, fails);
      var i :| 0 <= i < |alerts| && IsOpen(alerts[i]) && KeyOf(alerts[i]) == k;
      assert ApplyAll(alerts, cs, now, fails)[i] == alerts[i];
    }
  }

  /** The rows a pass creates, when every candidate is created: one row per candidate, in order. */
  function Materialize(firstId: int, cs: seq<Candidate>, now: int): (r: seq<Alert>)
    ensures |r| == |cs|
    ensures forall m :: 0 <= m < |cs| ==> KeyOf(r[m]) == CandidateKey(cs[m])
  {
    if cs == [] then []
    else
      var init := cs[..|cs| - 1];
      var c := cs[|cs| - 1];
      Materialize(firstId, init, now) + [Alert(firstId + |init|, c.protocol, c.alertType, c.severity, Some(c.message), now, None)]
  }

  /** A candidate is inserted when its key has no open alert before the pass and its insert does not fail. */
  predicate IsEligible(alerts: seq<Alert>, fails: set<AlertKey>, c: Candidate) {
    !HasOpen(alerts, CandidateKey(c)) && CandidateKey(c) !in fails
  }

  /** IsEligible as a filter condition. */
  function Eligible(alerts: seq<Alert>, fails: set<AlertKey>): Candidate -> bool {
    c => IsEligible(alerts, fails, c)
  }

  /** Materialize on one more candidate appends that candidate's row. */
  lemma MaterializeSnoc(firstId: int, cs: seq<Candidate>, c: Candidate, now: int)
    ensures Materialize(firstId, cs + [c], now)
            == Materialize(firstId, cs, now) + [Alert(firstId + |cs|, c.protocol, c.alertType, c.severity, Some(c.message), now, None)]
  {
    assert (cs + [c])[..|cs|] == cs;
  }

  /** Rows materialized for candidates of other keys do not open key k. */
  lemma MaterializeKeepsClosed(alerts: seq<Alert>, kept: seq<Candidate>, now: int, k: AlertKey)
    requires !HasOpen(alerts, k)
    requires forall x :: x in kept ==> CandidateKey(x) != k
    ensures !HasOpen(alerts + Materialize(|alerts| + 1, kept, now), k)
  {
    var r := alerts + Materialize(|alerts| + 1, kept, now);
    forall i | 0 <= i < |r| && IsOpen(r[i]) ensures KeyOf(r[i]) != k {
      if i < |alerts| {
        assert r[i] == alerts[i];
      } else {
        assert kept[i - |alerts|] in kept;
      }
    }
  }

  /** The candidates before the last have distinct keys, all different from the last one's. */
  lemma KeysDistinctInit(cs: seq<Candidate>)
    requires cs != [] && KeysDistinct(cs)
    ensures KeysDistinct(cs[..|cs| - 1])
    ensures forall x :: x in cs[..|cs| - 1] ==> CandidateKey(x) != CandidateKey(cs[|cs| - 1])
  {
    var init := cs[..|cs| - 1];
    assert forall i :: 0 <= i < |init| ==> init[i] == cs[i];
  }

  /** An eligible candidate whose key none of the materialized rows carries is appended as the next row. */
  lemma TryCreateEligible(alerts: seq<Alert>, kept: seq<Candidate>, c: Candidate, now: int, fails: set<AlertKey>)
    requires IsEligible(alerts, fails, c)
    requires forall x :: x in kept ==> CandidateKey(x) != CandidateKey(c)
    ensures TryCreate(alerts + Materialize(|alerts| + 1, kept, now), c, now, fails)
            == alerts + Materialize(|alerts| + 1, kept + [c], now)
  {
    var tail := Materialize(|alerts| + 1, kept, now);
    MaterializeKeepsClosed(alerts, kept, now, CandidateKey(c));
    var row := NewAlert(alerts + tail, c, now);
    assert TryCreate(alerts + tail, c, now, fails) == (alerts + tail) + [row];
    MaterializeSnoc(|alerts| + 1, kept, c, now);
    AppendAssoc(alerts, tail, [row]);
  }

  /** A candidate that is not eligible leaves the table as it is. */
  lemma TryCreateIneligible(alerts: seq<Alert>, prev: seq<Alert>, c: Candidate, now: int, fails: set<AlertKey>)
    requires !IsEligible(alerts, fails, c)
    requires HasOpen(alerts, CandidateKey(c)) ==> HasOpen(prev, CandidateKey(c))
    ensures TryCreate(prev, c, now, fails) == prev
  {
  }

  /**
   * With distinct keys, a pass appends exactly one row per eligible
   * candidate, in candidate order, with consecutive ids: deduplicated
   * candidates and failed inserts are skipped without leaving a gap.
   */
  lemma {:induction false} ApplyAllIsFilteredCandidates(alerts: seq<Alert>, cs: seq<Candidate>, now: int, fails: set<AlertKey>)
    requires KeysDistinct(cs)
    ensures ApplyAll(alerts, cs, now, fails) == alerts + Materialize(|alerts| + 1, Filter(cs, Eligible(alerts, fails)), now)
  {
    var e := Eligible(alerts, fails);
    if cs == [] {
      assert alerts + [] == alerts;
    } else {
      var init, last := cs[..|cs| - 1], cs[|cs| - 1];
      KeysDistinctInit(cs);
      ApplyAllIsFilteredCandidates(alerts, init, now, fails);
      var prev := ApplyAll(alerts, init, now, fails);
      var kept := Filter(init, e);
      assert ApplyAll(alerts, cs, now, fails) == TryCreate(prev, last, now, fails);
      FilterSnoc(cs, e);
      if IsEligible(alerts, fails, last) {
        assert Filter(cs, e) == kept + [last];
        TryCreateEligible(alerts, kept, last, now, fails);
      } else {
        assert Filter(cs, e) == kept;
        ApplyAllKeepsOpen(alerts, init, now, fails, CandidateKey(last));
        TryCreateIneligible(alerts, prev, last, now, fails);
      }
    }
  }

  /**
   * When no candidate is already open, their keys are distinct and no insert
   * fails, a pass returns exactly one alert per candidate, in candidate order.
   */
  lemma ApplyAllMirrorsCandidates(alerts: seq<Alert>, cs: seq<Candidate>, now: int)
    requires forall c :: c in cs ==> !HasOpen(alerts, CandidateKey(c))
    requires KeysDistinct(cs)
    ensures ApplyAll(alerts, cs, now, {}) == alerts + Materialize(|alerts| + 1, cs, now)
  {
    ApplyAllIsFilteredCandidates(alerts, cs, now, {});
    assert forall c :: c in cs ==> Eligible(alerts, {})(c);
    FilterKeepsAll(cs, Eligible(alerts, {}));
  }

  // ---------------------------------------------------------------------------
  // Properties of a whole pass
  // ---------------------------------------------------------------------------

  /**
   * A second pass at the same instant over unchanged snapshots, after a pass
   * in which no insert failed, creates nothing.
   */
  lemma SecondPassIsEmpty(cfg: Config, snaps: seq<Snapshot>, alerts: seq<Alert>, now: int, fails: set<AlertKey>)
    ensures var first := DetectionPass(cfg, snaps, alerts, now, {});
            DetectionPass(cfg, snaps, first, now, fails) == first
  {
    var cs := AllCandidates(cfg, snaps, ActiveProtocols(snaps, now), now);
    ApplyAllCovers(alerts, cs, now, {});
    ApplyAllNoop(ApplyAll(alerts, cs, now, {}), cs, now, fails);
  }

  /** Trying the same candidates again only creates rows for keys whose first insert failed. */
  lemma ApplyAllTwice(alerts: seq<Alert>, cs: seq<Candidate>, now: int, fails1: set<AlertKey>, fails2: set<AlertKey>)
    ensures var first := ApplyAll(alerts, cs, now, fails1);
            var second := ApplyAll(first, cs, now, fails2);
            forall k :: |first| <= k < |second| ==> KeyOf(second[k]) in fails1
  {
    var first := ApplyAll(alerts, cs, now, fails1);
    var second := ApplyAll(first, cs, now, fails2);
    ApplyAllCovers(alerts, cs, now, fails1);
    forall k | |first| <= k < |second| ensures KeyOf(second[k]) in fails1 {
      var c := SourceOf(first, cs, now, fails2, k);
      assert KeyOf(second[k]) == CandidateKey(c);
    }
  }

  /** A second pass at the same instant over unchanged snapshots only retries the keys whose insert failed in the first. */
  lemma SecondPassRetriesOnlyFailures(cfg: Config, snaps: seq<Snapshot>, alerts: seq<Alert>, now: int,
                                      fails1: set<AlertKey>, fails2: set<AlertKey>)
    ensures var first := DetectionPass(cfg, snaps, alerts, now, fails1);
            var second := DetectionPass(cfg, snaps, first, now, fails2);
            forall k :: |first| <= k < |second| ==> KeyOf(second[k]) in fails1
  {
    var cs := AllCandidates(cfg, snaps, ActiveProtocols(snaps, now), now);
    var first := DetectionPass(cfg, snaps, alerts, now, fails1);
    assert first == ApplyAll(alerts, cs, now, fails1);
    var second := DetectionPass(cfg, snaps, first, now, fails2);
    assert second == ApplyAll(first, cs, now, fails2);
    ApplyAllTwice(alerts, cs, now, fails1, fails2);
    forall k | |first| <= k < |second| ensures KeyOf(second[k]) in fails1 {
      assert |ApplyAll(alerts, cs, now, fails1)| <= k < |ApplyAll(ApplyAll(alerts, cs, now, fails1), cs, now, fails2)|;
      assert KeyOf(ApplyAll(ApplyAll(alerts, cs, now, fails1), cs, now, fails2)[k]) in fails1;
    }
  }

  /**
   * A later pass, at any instant and over any snapshot table, raises no new
   * alert for a key the first pass raised or found open: that alert is still
   * open, so _create_alert skips it.
   */
  lemma LaterPassSkipsOpenKeys(cfg: Config, snaps: seq<Snapshot>, alerts: seq<Alert>, now: int, fails1: set<AlertKey>,
                               snaps2: seq<Snapshot>, now2: int, fails2: set<AlertKey>)
    ensures var cs := AllCandidates(cfg, snaps, ActiveProtocols(snaps, now), now);
            var first := DetectionPass(cfg, snaps, alerts, now, fails1);
            var second := DetectionPass(cfg, snaps2, first, now2, fails2);
            forall k, c :: |first| <= k < |second| && c in cs && CandidateKey(c) !in fails1 ==>
              KeyOf(second[k]) != CandidateKey(c)
  {
    var cs := AllCandidates(cfg, snaps, ActiveProtocols(snaps, now), now);
    var cs2 := AllCandidates(cfg, snaps2, ActiveProtocols(snaps2, now2), now2);
    var first := ApplyAll(alerts, cs, now, fails1);
    var second := ApplyAll(first, cs2, now2, fails2);
    ApplyAllCovers(alerts, cs, now, fails1);
    forall k, c | |first| <= k < |second| && c in cs && CandidateKey(c) !in fails1
      ensures KeyOf(second[k]) != CandidateKey(c)
    {
      var c2 := SourceOf(first, cs2, now2, fails2, k);
      assert KeyOf(second[k]) == CandidateKey(c2);
      assert HasOpen(first, CandidateKey(c));
    }
  }

  /**
   * Rule soundness for a pass: each created alert belongs to an active
   * protocol, says what the rule of its type decided, carries that rule's
   * severity, and a utilization alert only ever goes to a lending protocol.
   */
  lemma PassAlertsAreSound(cfg: Config, snaps: seq<Snapshot>, alerts: seq<Alert>, now: int, fails: set<AlertKey>)
    ensures var r := DetectionPass(cfg, snaps, alerts, now, fails);
            forall k :: |alerts| <= k < |r| ==>
              && RecentlySeen(snaps, r[k].protocol, now)
              && !HasOpen(alerts, KeyOf(r[k]))
              && r[k].id == k + 1 && r[k].triggeredAt == now && IsOpen(r[k])
              && (r[k].alertType == TvlDrop ==> r[k].severity == Critical && TvlDropRule(cfg, snaps, r[k].protocol, now).Some?)
              && (r[k].alertType == ApyLow ==> r[k].severity == Warning && ApyLowRule(cfg, snaps, r[k].protocol).Some?)
              && (r[k].alertType == UtilizationHigh ==>
                    r[k].severity == Warning && r[k].protocol in LendingProtocols
                    && UtilizationHighRule(cfg, snaps, r[k].protocol).Some?)
  {
    var ps := ActiveProtocols(snaps, now);
    var cs := AllCandidates(cfg, snaps, ps, now);
    ApplyAllAppends(alerts, cs, now, fails);
    var r := ApplyAll(alerts, cs, now, fails);
    forall k | |alerts| <= k < |r|
      ensures && RecentlySeen(snaps, r[k].protocol, now)
              && !HasOpen(alerts, KeyOf(r[k]))
              && r[k].id == k + 1 && r[k].triggeredAt == now && IsOpen(r[k])
              && (r[k].alertType == TvlDrop ==> r[k].severity == Critical && TvlDropRule(cfg, snaps, r[k].protocol, now).Some?)
              && (r[k].alertType == ApyLow ==> r[k].severity == Warning && ApyLowRule(cfg, snaps, r[k].protocol).Some?)
              && (r[k].alertType == UtilizationHigh ==>
                    r[k].severity == Warning && r[k].protocol in LendingProtocols
                    && UtilizationHighRule(cfg, snaps, r[k].protocol).Some?)
    {
      var c := SourceOf(alerts, cs, now, fails, k);
      PassCandidateIsSound(cfg, snaps, now, c);
    }
  }

  /** Each candidate of a pass belongs to an active protocol and is what the rule of its type raised. */
  lemma PassCandidateIsSound(cfg: Config, snaps: seq<Snapshot>, now: int, c: Candidate)
    requires c in AllCandidates(cfg, snaps, ActiveProtocols(snaps, now), now)
    ensures RecentlySeen(snaps, c.protocol, now)
    ensures c.alertType == TvlDrop ==> c.severity == Critical && TvlDropRule(cfg, snaps, c.protocol, now).Some?
    ensures c.alertType == ApyLow ==> c.severity == Warning && ApyLowRule(cfg, snaps, c.protocol).Some?
    ensures c.alertType == UtilizationHigh ==>
              c.severity == Warning && c.protocol in LendingProtocols && UtilizationHighRule(cfg, snaps, c.protocol).Some?
  {
    var ps := ActiveProtocols(snaps, now);
    CandidatesUpToSource(ProtocolRules(cfg, snaps, now), ps, |ps|, c);
    var j :| 0 <= j < |ps| && c in ProtocolCandidates(cfg, snaps, ps[j], now);
    ProtocolCandidatesFromRules(cfg, snaps, ps[j], now, c);
    ProtocolCandidatesShape(cfg, snaps, ps[j], now);
  }

  /** A pass keeps the dedup invariant: at most one open alert per key. */
  lemma PassKeepsDedup(cfg: Config, snaps: seq<Snapshot>, alerts: seq<Alert>, now: int, fails: set<AlertKey>)
    requires AtMostOneOpenPerKey(alerts)
    ensures AtMostOneOpenPerKey(DetectionPass(cfg, snaps, alerts, now, fails))
  {
    ApplyAllAppends(alerts, AllCandidates(cfg, snaps, ActiveProtocols(snaps, now), now), now, fails);
  }

  /**
   * A pass in which no earlier alert is open and no insert fails returns one
   * alert per candidate, protocol by protocol and tvl, apy, utilization within one.
   */
  lemma FreshPassReturnsAllCandidates(cfg: Config, snaps: seq<Snapshot>, alerts: seq<Alert>, now: int)
    requires forall i :: 0 <= i < |alerts| ==> !IsOpen(alerts[i])
    ensures var cs := AllCandidates(cfg, snaps, ActiveProtocols(snaps, now), now);
            DetectionPass(cfg, snaps, alerts, now, {}) == alerts + Materialize(|alerts| + 1, cs, now)
  {
    var ps := ActiveProtocols(snaps, now);
    var cs := AllCandidates(cfg, snaps, ps, now);
    ProtocolRulesShape(cfg, snaps, now);
    CandidatesUpToKeysDistinct(ProtocolRules(cfg, snaps, now), ps, |ps|);
    ApplyAllMirrorsCandidates(alerts, cs, now);
  }

  /**
   * The alerts a pass creates, in general: one per candidate whose key is
   * not already open and whose insert does not fail, protocol by protocol
   * and tvl, apy, utilization within one, with consecutive ids.
   */
  lemma PassReturnsEligibleCandidates(cfg: Config, snaps: seq<Snapshot>, alerts: seq<Alert>, now: int, fails: set<AlertKey>)
    ensures var cs := AllCandidates(cfg, snaps, ActiveProtocols(snaps, now), now);
            DetectionPass(cfg, snaps, alerts, now, fails)
              == alerts + Materialize(|alerts| + 1, Filter(cs, Eligible(alerts, fails)), now)
  {
    var ps := ActiveProtocols(snaps, now);
    ProtocolRulesShape(cfg, snaps, now);
    CandidatesUpToKeysDistinct(ProtocolRules(cfg, snaps, now), ps, |ps|);
    ApplyAllIsFilteredCandidates(alerts, AllCandidates(cfg, snaps, ps, now), now, fails);
  }

  // ---------------------------------------------------------------------------
  // The imperative detector over the database
  // ---------------------------------------------------------------------------

  /**
   * _create_alert: inserts the alert unless an open alert with the same
   * (protocol, alert type) exists; a failing insert is rolled back.
   */
  method CreateAlert(db: Db, protocol: string, alertType: AlertType, severity: Severity, message: Message,
                     now: int, insertFails: bool) returns (r: Option<Alert>)
    requires db.Valid()
    modifies db
    ensures db.Valid() && db.snapshots == old(db.snapshots)
    ensures HasOpen(old(db.alerts), AlertKey(protocol, alertType)) || insertFails ==>
              r.None? && db.alerts == old(db.alerts)
    ensures !HasOpen(old(db.alerts), AlertKey(protocol, alertType)) && !insertFails ==>
              && r == Some(Alert(|old(db.alerts)| + 1, protocol, alertType, severity, Some(message), now, None))
              && db.alerts == old(db.alerts) + [r.value]
  {
    if HasOpen(db.alerts, AlertKey(protocol, alertType)) {
      return None;
    }
    if insertFails {
      return None;
    }
    var alert := Alert(|db.alerts| + 1, protocol, alertType, severity, Some(message), now, None);
    var c := Candidate(protocol, alertType, severity, message);
    assert db.alerts + [alert] == TryCreate(db.alerts, c, now, {});
    db.alerts := db.alerts + [alert];
    r := Some(alert);
  }

  /** The alert table after a rule's decision: unchanged when it decided nothing. */
  function Attempt(alerts: seq<Alert>, o: Option<Candidate>, now: int, fails: set<AlertKey>): seq<Alert> {
    if o.None? then alerts else TryCreate(alerts, o.value, now, fails)
  }

  /** Hands a rule's decision to CreateAlert, as each _check_* method does. */
  method RaiseCandidate(db: Db, o: Option<Candidate>, now: int, fails: set<AlertKey>) returns (r: Option<Alert>)
    requires db.Valid()
    modifies db
    ensures db.Valid() && db.snapshots == old(db.snapshots)
    ensures db.alerts == Attempt(old(db.alerts), o, now, fails)
    ensures r.None? ==> db.alerts == old(db.alerts)
    ensures r.Some? ==> db.alerts == old(db.alerts) + [r.value] && r.value == NewAlert(old(db.alerts), o.value, now)
  {
    if o.None? {
      return None;
    }
    var c := o.value;
    r := CreateAlert(db, c.protocol, c.alertType, c.severity, c.message, now, CandidateKey(c) in fails);
  }

  /** _check_tvl_drop. */
  method CheckTvlDrop(db: Db, cfg: Config, p: string, now: int, fails: set<AlertKey>) returns (r: Option<Alert>)
    requires db.Valid()
    modifies db
    ensures db.Valid() && db.snapshots == old(db.snapshots)
    ensures db.alerts == Attempt(old(db.alerts), TvlDropRule(cfg, db.snapshots, p, now), now, fails)
    ensures r.None? ==> db.alerts == old(db.alerts)
    ensures r.Some? ==> db.alerts == old(db.alerts) + [r.value]
  {
    r := RaiseCandidate(db, TvlDropRule(cfg, db.snapshots, p, now), now, fails);
  }

  /** _check_apy_low. */
  method CheckApyLow(db: Db, cfg: Config, p: string, now: int, fails: set<AlertKey>) returns (r: Option<Alert>)
    requires db.Valid()
    modifies db
    ensures db.Valid() && db.snapshots == old(db.snapshots)
    ensures db.alerts == Attempt(old(db.alerts), ApyLowRule(cfg, db.snapshots, p), now, fails)
    ensures r.None? ==> db.alerts == old(db.alerts)
    ensures r.Some? ==> db.alerts == old(db.alerts) + [r.value]
  {
    r := RaiseCandidate(db, ApyLowRule(cfg, db.snapshots, p), now, fails);
  }

  /** _check_utilization_high. */
  method CheckUtilizationHigh(db: Db, cfg: Config, p: string, now: int, fails: set<AlertKey>) returns (r: Option<Alert>)
    requires db.Valid()
    modifies db
    ensures db.Valid() && db.snapshots == old(db.snapshots)
    ensures db.alerts == Attempt(old(db.alerts), UtilizationHighRule(cfg, db.snapshots, p), now, fails)
    ensures r.None? ==> db.alerts == old(db.alerts)
    ensures r.Some? ==> db.alerts == old(db.alerts) + [r.value]
  {
    r := RaiseCandidate(db, UtilizationHighRule(cfg, db.snapshots, p), now, fails);
  }

  /** Trying one more candidate extends ApplyAll by one step. */
  lemma ApplyAllSnoc(alerts: seq<Alert>, cs: seq<Candidate>, c: Candidate, now: int, fails: set<AlertKey>)
    ensures ApplyAll(alerts, cs + [c], now, fails) == TryCreate(ApplyAll(alerts, cs, now, fails), c, now, fails)
  {
    assert (cs + [c])[..|cs|] == cs;
  }

  /** Trying a rule's decision extends ApplyAll by that decision's candidates. */
  lemma ApplyAllAttempt(alerts: seq<Alert>, cs: seq<Candidate>, o: Option<Candidate>, now: int, fails: set<AlertKey>)
    ensures ApplyAll(alerts, cs + OptionToSeq(o), now, fails) == Attempt(ApplyAll(alerts, cs, now, fails), o, now, fails)
  {
    if o.Some? {
      ApplyAllSnoc(alerts, cs, o.value, now, fails);
    } else {
      assert cs + [] == cs;
    }
  }

  /** Trying xs and then ys is trying xs + ys. */
  lemma {:induction false} ApplyAllConcat(alerts: seq<Alert>, xs: seq<Candidate>, ys: seq<Candidate>, now: int, fails: set<AlertKey>)
    ensures ApplyAll(alerts, xs + ys, now, fails) == ApplyAll(ApplyAll(alerts, xs, now, fails), ys, now, fails)
  {
    if ys == [] {
      assert xs + ys == xs;
    } else {
      var init, last := ys[..|ys| - 1], ys[|ys| - 1];
      ApplyAllConcat(alerts, xs, init, now, fails);
      assert (xs + ys)[..|xs + ys| - 1] == xs + init;
    }
  }

  /** A protocol's turn, as the alert table after its rules' decisions are tried in order. */
  function ProtocolTurn(alerts: seq<Alert>, cfg: Config, snaps: seq<Snapshot>, p: string, now: int, fails: set<AlertKey>): seq<Alert> {
    var afterTvl := Attempt(alerts, TvlDropRule(cfg, snaps, p, now), now, fails);
    var afterApy := Attempt(afterTvl, ApyLowRule(cfg, snaps, p), now, fails);
    if p in LendingProtocols then Attempt(afterApy, UtilizationHighRule(cfg, snaps, p), now, fails) else afterApy
  }

  /** Trying a protocol's candidates one by one is its turn. */
  lemma ApplyAllProtocolCandidates(alerts: seq<Alert>, cfg: Config, snaps: seq<Snapshot>, p: string, now: int, fails: set<AlertKey>)
    ensures ApplyAll(alerts, ProtocolCandidates(cfg, snaps, p, now), now, fails) == ProtocolTurn(alerts, cfg, snaps, p, now, fails)
  {
    var t := OptionToSeq(TvlDropRule(cfg, snaps, p, now));
    var y := OptionToSeq(ApyLowRule(cfg, snaps, p));
    ApplyAllAttempt(alerts, [], TvlDropRule(cfg, snaps, p, now), now, fails);
    assert [] + t == t;
    ApplyAllAttempt(alerts, t, ApyLowRule(cfg, snaps, p), now, fails);
    if p in LendingProtocols {
      ApplyAllAttempt(alerts, t + y, UtilizationHighRule(cfg, snaps, p), now, fails);
    } else {
      assert t + y + [] == t + y;
    }
  }

  /**
   * One turn of detect_all's loop: the TVL and APY checks, and the
   * utilization check for a lending protocol.
   */
  method DetectProtocol(db: Db, cfg: Config, p: string, now: int, fails: set<AlertKey>) returns (created: seq<Alert>)
    requires db.Valid()
    modifies db
    ensures db.Valid() && db.snapshots == old(db.snapshots)
    ensures db.alerts == ApplyAll(old(db.alerts), ProtocolRules(cfg, old(db.snapshots), now)(p), now, fails)
    ensures db.alerts == old(db.alerts) + created
  {
    ghost var a0 := db.alerts;
    ghost var snaps := db.snapshots;
    created := [];
    var tvlAlert := CheckTvlDrop(db, cfg, p, now, fails);
    if tvlAlert.Some? {
      AppendAssoc(a0, created, [tvlAlert.value]);
      created := created + [tvlAlert.value];
    }
    assert db.alerts == a0 + created;
    var apyAlert := CheckApyLow(db, cfg, p, now, fails);
    if apyAlert.Some? {
      AppendAssoc(a0, created, [apyAlert.value]);
      created := created + [apyAlert.value];
    }
    assert db.alerts == a0 + created;
    if p in LendingProtocols {
      var utilAlert := CheckUtilizationHigh(db, cfg, p, now, fails);
      if utilAlert.Some? {
        AppendAssoc(a0, created, [utilAlert.value]);
        created := created + [utilAlert.value];
      }
    }
    ApplyAllProtocolCandidates(a0, cfg, snaps, p, now, fails);
  }



  /** One more protocol's turn extends the pass so far, and the rows created so far, by that turn's rows. */
  lemma PassStep(a0: seq<Alert>, created: seq<Alert>, added: seq<Alert>, rules: string -> seq<Candidate>,
                 ps: seq<string>, i: nat, now: int, fails: set<AlertKey>)
    requires i < |ps|
    requires a0 + created == ApplyAll(a0, CandidatesUpTo(rules, ps, i), now, fails)
    requires a0 + created + added == ApplyAll(a0 + created, rules(ps[i]), now, fails)
    ensures a0 + created + added == a0 + (created + added)
    ensures a0 + created + added == ApplyAll(a0, CandidatesUpTo(rules, ps, i + 1), now, fails)
  {
    AppendAssoc(a0, created, added);
    ApplyAllConcat(a0, CandidatesUpTo(rules, ps, i), rules(ps[i]), now, fails);
  }

  /**
   * detect_all: one pass over the active protocols; returns exactly the
   * alerts it created, which are the rows it appended.
   */
  method DetectAll(db: Db, cfg: Config, now: int, fails: set<AlertKey>) returns (created: seq<Alert>)
    requires db.Valid()
    modifies db
    ensures db.Valid() && db.snapshots == old(db.snapshots)
    ensures db.alerts == DetectionPass(cfg, old(db.snapshots), old(db.alerts), now, fails)
    ensures db.alerts == old(db.alerts) + created
  {
    var ps := ActiveProtocols(db.snapshots, now);
    ghost var a0 := db.alerts;
    ghost var snaps := db.snapshots;
    ghost var rules := ProtocolRules(cfg, snaps, now);
    created := [];
    var i := 0;
    while i < |ps|
      invariant 0 <= i <= |ps|
      invariant db.Valid() && db.snapshots == snaps
      invariant db.alerts == ApplyAll(a0, CandidatesUpTo(rules, ps, i), now, fails)
      invariant db.alerts == a0 + created
    {
      var protocolAlerts := DetectProtocol(db, cfg, ps[i], now, fails);
      PassStep(a0, created, protocolAlerts, rules, ps, i, now, fails);
      created := created + protocolAlerts;
      i := i + 1;
    }
  }

}
