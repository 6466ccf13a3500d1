/**
 * Concrete runs of a detection pass under the default settings: the demo's
 * TVL crash, a drop below the threshold, the APY minimum, and the
 * lending-only utilization rule.
 */
module Scenarios {
  import opened Wrappers
  import opened Models
  import opened AnomalyDetector
  import opened Collections
  import opened Api

  /** The run's instant, in seconds. */
  const Now: int := 10 * DAY

  /** A snapshot 24 hours and 5 minutes old, and one taken now. */
  function History(p: string, oldTvl: real, tvl: real, apy: real, util: real): seq<Snapshot> {
    [ Snapshot(p, Now - 24 * HOUR - 300, Some(oldTvl), Some(10.0), Some(0.80)),
      Snapshot(p, Now, Some(tvl), Some(apy), Some(util)) ]
  }

  /** A pass over an empty alert table with no failing insert. */
  function Pass(snaps: seq<Snapshot>): seq<Alert> {
    DetectionPass(DefaultConfig, snaps, [], Now, {})
  }

  /** In a two-snapshot history the "now" row is the newest and the older row the newest at the lookback instant. */
  lemma HistoryLatest(p: string, oldTvl: real, tvl: real, apy: real, util: real)
    ensures var h := History(p, oldTvl, tvl, apy, util);
            && LatestSnapshot(h, p, None) == Some(h[1])
            && LatestSnapshot(h, p, Some(LookbackCutoff(DefaultConfig, Now))) == Some(h[0])
  {
    var h := History(p, oldTvl, tvl, apy, util);
    assert h[..1] == [h[0]] && [h[0]][..0] == [];
    assert LookbackCutoff(DefaultConfig, Now) == Now - 24 * HOUR;
    assert LatestSnapshot([h[0]], p, Some(Now - 24 * HOUR)) == Some(h[0]);
    assert !Within(h[1], Some(Now - 24 * HOUR));
    assert LatestSnapshot([h[0]], p, None) == Some(h[0]);
  }

  /** The only active protocol of a two-snapshot history is its own. */
  lemma HistoryActive(p: string, oldTvl: real, tvl: real, apy: real, util: real)
    ensures ActiveProtocols(History(p, oldTvl, tvl, apy, util), Now) == [p]
  {
    var h := History(p, oldTvl, tvl, apy, util);
    assert RecentlySeen(h, p, Now) by {
      assert h[1].protocol == p && h[1].timestamp >= Now - ActiveWindowHours * HOUR;
    }
    var active := ActiveProtocols(h, Now);
    assert forall q :: q in active ==> q == p;
    NoDuplicatesCard(active);
    assert (set x | x in active) == {p};
  }

  /** A pass over a two-snapshot history tries the candidates of its protocol. */
  lemma HistoryPass(p: string, oldTvl: real, tvl: real, apy: real, util: real)
    ensures var h := History(p, oldTvl, tvl, apy, util);
            Pass(h) == ApplyAll([], ProtocolCandidates(DefaultConfig, h, p, Now), Now, {})
  {
    var h := History(p, oldTvl, tvl, apy, util);
    HistoryActive(p, oldTvl, tvl, apy, util);
    var rules := ProtocolRules(DefaultConfig, h, Now);
    var cs := ProtocolCandidates(DefaultConfig, h, p, Now);
    assert rules(p) == cs;
    assert CandidatesUpTo(rules, [p], 0) == [];
    assert CandidatesUpTo(rules, [p], 1) == [] + cs;
    assert [] + cs == cs;
    assert AllCandidates(DefaultConfig, h, [p], Now) == cs;
  }

  /** The TVL rule compares the two rows of a two-snapshot history. */
  lemma HistoryTvlRule(p: string, oldTvl: real, tvl: real, apy: real, util: real)
    ensures TvlDropRule(DefaultConfig, History(p, oldTvl, tvl, apy, util), p, Now)
            == (if oldTvl != 0.0 && tvl != 0.0 && DropRatio(oldTvl, tvl) > 0.20
                then Some(TvlDropCandidate(DefaultConfig, p, tvl, oldTvl)) else None)
  {
    HistoryLatest(p, oldTvl, tvl, apy, util);
  }

  /** The APY rule reads the newer row of a two-snapshot history. */
  lemma HistoryApyRule(p: string, oldTvl: real, tvl: real, apy: real, util: real)
    ensures ApyLowRule(DefaultConfig, History(p, oldTvl, tvl, apy, util), p)
            == (if apy != 0.0 && apy < 2.0 then Some(Candidate(p, ApyLow, Warning, ApyLowMessage(apy, 2.0))) else None)
  {
    HistoryLatest(p, oldTvl, tvl, apy, util);
  }

  /** The utilization rule reads the newer row of a two-snapshot history. */
  lemma HistoryUtilizationRule(p: string, oldTvl: real, tvl: real, apy: real, util: real)
    ensures UtilizationHighRule(DefaultConfig, History(p, oldTvl, tvl, apy, util), p)
            == (if util != 0.0 && util > 0.95
                then Some(Candidate(p, UtilizationHigh, Warning, UtilizationHighMessage(util, 0.95))) else None)
  {
    HistoryLatest(p, oldTvl, tvl, apy, util);
  }

  /** What each rule decides on a two-snapshot history, and the pass that follows. */
  lemma HistoryRules(p: string, oldTvl: real, tvl: real, apy: real, util: real)
    ensures var h := History(p, oldTvl, tvl, apy, util);
            && Pass(h) == ApplyAll([], ProtocolCandidates(DefaultConfig, h, p, Now), Now, {})
            && TvlDropRule(DefaultConfig, h, p, Now)
               == (if oldTvl != 0.0 && tvl != 0.0 && DropRatio(oldTvl, tvl) > 0.20
                   then Some(TvlDropCandidate(DefaultConfig, p, tvl, oldTvl)) else None)
            && ApyLowRule(DefaultConfig, h, p)
               == (if apy != 0.0 && apy < 2.0 then Some(Candidate(p, ApyLow, Warning, ApyLowMessage(apy, 2.0))) else None)
            && UtilizationHighRule(DefaultConfig, h, p)
               == (if util != 0.0 && util > 0.95
                   then Some(Candidate(p, UtilizationHigh, Warning, UtilizationHighMessage(util, 0.95))) else None)
  {
    HistoryPass(p, oldTvl, tvl, apy, util);
    HistoryTvlRule(p, oldTvl, tvl, apy, util);
    HistoryApyRule(p, oldTvl, tvl, apy, util);
    HistoryUtilizationRule(p, oldTvl, tvl, apy, util);
  }

  /** Trying one candidate on an empty table inserts it as alert 1. */
  lemma OneCandidate(c: Candidate)
    ensures ApplyAll([], [c], Now, {}) == [NewAlert([], c, Now)]
  {
    assert [c][..0] == [];
  }

  /** The TVL rule stays silent on a two-snapshot history. */
  predicate TvlQuiet(oldTvl: real, tvl: real) {
    !(oldTvl != 0.0 && tvl != 0.0 && DropRatio(oldTvl, tvl) > 0.20)
  }

  /** The APY rule stays silent on a two-snapshot history. */
  predicate ApyQuiet(apy: real) {
    !(apy != 0.0 && apy < 2.0)
  }

  /** The utilization rule stays silent, or is not run, on a two-snapshot history. */
  predicate UtilizationQuiet(p: string, util: real) {
    !(p in LendingProtocols && util != 0.0 && util > 0.95)
  }

  /** A history whose protocol has a single candidate raises exactly that alert, as alert 1. */
  lemma SingleCandidatePass(p: string, oldTvl: real, tvl: real, apy: real, util: real, c: Candidate)
    requires ProtocolCandidates(DefaultConfig, History(p, oldTvl, tvl, apy, util), p, Now) == [c]
    ensures Pass(History(p, oldTvl, tvl, apy, util)) == [NewAlert([], c, Now)]
  {
    HistoryPass(p, oldTvl, tvl, apy, util);
    OneCandidate(c);
  }

  /** When no rule fires on a two-snapshot history, the pass raises nothing. */
  lemma QuietHistory(p: string, oldTvl: real, tvl: real, apy: real, util: real)
    requires TvlQuiet(oldTvl, tvl) && ApyQuiet(apy) && UtilizationQuiet(p, util)
    ensures Pass(History(p, oldTvl, tvl, apy, util)) == []
  {
    HistoryRules(p, oldTvl, tvl, apy, util);
    assert ProtocolCandidates(DefaultConfig, History(p, oldTvl, tvl, apy, util), p, Now) == [];
  }

  /** When only the TVL rule fires on a two-snapshot history, the pass raises its critical alert. */
  lemma TvlOnlyHistory(p: string, oldTvl: real, tvl: real, apy: real, util: real)
    requires !TvlQuiet(oldTvl, tvl) && ApyQuiet(apy) && UtilizationQuiet(p, util)
    ensures Pass(History(p, oldTvl, tvl, apy, util))
            == [Alert(1, p, TvlDrop, Critical, Some(TvlDropMessage(DropRatio(oldTvl, tvl), 24, oldTvl, tvl)), Now, None)]
  {
    var c := TvlDropCandidate(DefaultConfig, p, tvl, oldTvl);
    HistoryRules(p, oldTvl, tvl, apy, util);
    assert ProtocolCandidates(DefaultConfig, History(p, oldTvl, tvl, apy, util), p, Now) == [c] + [] + [];
    assert [c] + [] + [] == [c];
    SingleCandidatePass(p, oldTvl, tvl, apy, util, c);
  }

  /** When only the APY rule fires on a two-snapshot history, the pass raises its warning. */
  lemma ApyOnlyHistory(p: string, oldTvl: real, tvl: real, apy: real, util: real)
    requires TvlQuiet(oldTvl, tvl) && !ApyQuiet(apy) && UtilizationQuiet(p, util)
    ensures Pass(History(p, oldTvl, tvl, apy, util))
            == [Alert(1, p, ApyLow, Warning, Some(ApyLowMessage(apy, 2.0)), Now, None)]
  {
    var c := Candidate(p, ApyLow, Warning, ApyLowMessage(apy, 2.0));
    HistoryRules(p, oldTvl, tvl, apy, util);
    assert ProtocolCandidates(DefaultConfig, History(p, oldTvl, tvl, apy, util), p, Now) == [] + [c] + [];
    assert [] + [c] + [] == [c];
    SingleCandidatePass(p, oldTvl, tvl, apy, util, c);
  }

  /** When only the utilization rule fires on a two-snapshot history, the pass raises its warning. */
  lemma UtilizationOnlyHistory(p: string, oldTvl: real, tvl: real, apy: real, util: real)
    requires TvlQuiet(oldTvl, tvl) && ApyQuiet(apy) && !UtilizationQuiet(p, util)
    ensures Pass(History(p, oldTvl, tvl, apy, util))
            == [Alert(1, p, UtilizationHigh, Warning, Some(UtilizationHighMessage(util, 0.95)), Now, None)]
  {
    var c := Candidate(p, UtilizationHigh, Warning, UtilizationHighMessage(util, 0.95));
    HistoryRules(p, oldTvl, tvl, apy, util);
    assert ProtocolCandidates(DefaultConfig, History(p, oldTvl, tvl, apy, util), p, Now) == [] + [] + [c];
    assert [] + [] + [c] == [c];
    SingleCandidatePass(p, oldTvl, tvl, apy, util, c);
  }

  /** A fall from $100M to $50M raises exactly one critical TVL alert. */
  lemma CrashRaisesOneCriticalAlert()
    ensures Pass(History("felix", 100000000.0, 50000000.0, 10.0, 0.80))
            == [Alert(1, "felix", TvlDrop, Critical, Some(TvlDropMessage(0.5, 24, 100000000.0, 50000000.0)), Now, None)]
  {
    assert DropRatio(100000000.0, 50000000.0) == 0.5;
    TvlOnlyHistory("felix", 100000000.0, 50000000.0, 10.0, 0.80);
  }

  /** After the crash felix reports critical. */
  lemma CrashMakesFelixCritical()
    ensures StatusOf(Pass(History("felix", 100000000.0, 50000000.0, 10.0, 0.80)), "felix") == StatusCritical
  {
    CrashRaisesOneCriticalAlert();
    var alerts := Pass(History("felix", 100000000.0, 50000000.0, 10.0, 0.80));
    assert alerts[0].protocol == "felix" && alerts[0].severity == Critical && IsOpen(alerts[0]);
  }

  /** A 15% fall stays under the 20% threshold and raises nothing. */
  lemma SmallDropRaisesNothing()
    ensures Pass(History("felix", 100000000.0, 85000000.0, 10.0, 0.80)) == []
  {
    assert DropRatio(100000000.0, 85000000.0) == 0.15;
    QuietHistory("felix", 100000000.0, 85000000.0, 10.0, 0.80);
  }

  /** An APY of 1.5 is under the 2.0 minimum and raises one warning; 2.5 raises nothing. */
  lemma ApyMinimum()
    ensures Pass(History("hlp", 100.0, 100.0, 1.5, 0.80))
            == [Alert(1, "hlp", ApyLow, Warning, Some(ApyLowMessage(1.5, 2.0)), Now, None)]
    ensures Pass(History("hlp", 100.0, 100.0, 2.5, 0.80)) == []
  {
    assert DropRatio(100.0, 100.0) == 0.0;
    ApyOnlyHistory("hlp", 100.0, 100.0, 1.5, 0.80);
    QuietHistory("hlp", 100.0, 100.0, 2.5, 0.80);
  }

  /** A utilization of 0.99 raises a warning for the lending protocol felix and nothing for hlp. */
  lemma UtilizationOnlyForLending()
    ensures Pass(History("felix", 100.0, 100.0, 10.0, 0.99))
            == [Alert(1, "felix", UtilizationHigh, Warning, Some(UtilizationHighMessage(0.99, 0.95)), Now, None)]
    ensures Pass(History("hlp", 100.0, 100.0, 10.0, 0.99)) == []
  {
    assert DropRatio(100.0, 100.0) == 0.0;
    UtilizationOnlyHistory("felix", 100.0, 100.0, 10.0, 0.99);
    QuietHistory("hlp", 100.0, 100.0, 10.0, 0.99);
  }
}
