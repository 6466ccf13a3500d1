/**
 * The ingestion run: store one snapshot per protocol under one run
 * timestamp, count the outcomes, run detection once, and turn the failure
 * count into the process exit code. Fetching is outside the model: each
 * fetcher's result is an input.
 */
module Ingest {
  import opened Wrappers
  import opened Models
  import opened AnomalyDetector

  /** The metrics a fetcher returns; each may be missing. */
  datatype Metrics = Metrics(tvl: Option<real>, apy: Option<real>, utilization: Option<real>)

  /** The result of a fetcher call: its metrics, or an exception. */
  datatype Fetch = Fetched(metrics: Metrics) | FetchRaised

  /** The row _store_snapshot builds: a missing or zero metric is stored as NULL. */
  function SnapshotRow(p: string, t: int, m: Metrics): Snapshot {
    Snapshot(p, t, Nullify(m.tvl), Nullify(m.apy), Nullify(m.utilization))
  }

  /** The table already has a row for (protocol, timestamp). */
  predicate HasKey(snaps: seq<Snapshot>, p: string, t: int) {
    exists i :: 0 <= i < |snaps| && snaps[i].protocol == p && snaps[i].timestamp == t
  }

  /** The table after a store, and what the store returned. */
  datatype StoreResult = StoreResult(snapshots: seq<Snapshot>, ok: bool)

  /**
   * _store_snapshot on the table. storageFails stands for an error of the
   * session other than the unique-key violation; it is rolled back. A
   * duplicate key is rolled back and reported as success. A new row is
   * committed; the log line after the commit formats the TVL as a number, so
   * a missing TVL raises there and the call returns False with the row
   * already committed.
   */
  function Store(snaps: seq<Snapshot>, p: string, t: int, m: Metrics, storageFails: bool): StoreResult {
    if storageFails then StoreResult(snaps, false)
    else if HasKey(snaps, p, t) then StoreResult(snaps, true)
    else StoreResult(snaps + [SnapshotRow(p, t, m)], m.tvl.Some?)
  }

  /**
   * The three outcomes of a store, each in its case: a storage error stores
   * nothing, a duplicate stores nothing, anything else appends one row; and
   * the store reports success exactly when there was no storage error and
   * the key was already there or the TVL was present.
   */
  lemma StoreOutcomes(snaps: seq<Snapshot>, p: string, t: int, m: Metrics, storageFails: bool)
    ensures var r := Store(snaps, p, t, m, storageFails);
            && (r.ok <==> !storageFails && (HasKey(snaps, p, t) || m.tvl.Some?))
            && (storageFails || HasKey(snaps, p, t) ==> r.snapshots == snaps)
            && (!storageFails && !HasKey(snaps, p, t) ==>
                  |r.snapshots| == |snaps| + 1 && r.snapshots[..|snaps|] == snaps
                  && r.snapshots[|snaps|].protocol == p && r.snapshots[|snaps|].timestamp == t)
  {
    var r := Store(snaps, p, t, m, storageFails);
    if !storageFails && !HasKey(snaps, p, t) {
      assert r.snapshots == snaps + [SnapshotRow(p, t, m)];
    }
  }

  /** A snapshot without a TVL is committed and yet reported as a failure. */
  lemma MissingTvlStoredButFailed(snaps: seq<Snapshot>, p: string, t: int, m: Metrics)
    requires !HasKey(snaps, p, t) && m.tvl.None?
    ensures Store(snaps, p, t, m, false) == StoreResult(snaps + [SnapshotRow(p, t, m)], false)
    ensures HasKey(Store(snaps, p, t, m, false).snapshots, p, t)
  {
    assert Store(snaps, p, t, m, false).snapshots[|snaps|] == SnapshotRow(p, t, m);
  }

  /** A stored metric is NULL exactly when the fetched one was missing or zero, and unchanged otherwise. */
  lemma StoreNullifies(snaps: seq<Snapshot>, p: string, t: int, m: Metrics)
    requires !HasKey(snaps, p, t)
    ensures var row := Store(snaps, p, t, m, false).snapshots[|snaps|];
            && (row.tvl.Some? <==> m.tvl.Some? && m.tvl.value != 0.0) && (row.tvl.Some? ==> row.tvl == m.tvl)
            && (row.apy.Some? <==> m.apy.Some? && m.apy.value != 0.0) && (row.apy.Some? ==> row.apy == m.apy)
            && (row.utilization.Some? <==> m.utilization.Some? && m.utilization.value != 0.0)
            && (row.utilization.Some? ==> row.utilization == m.utilization)
  {
    assert Store(snaps, p, t, m, false).snapshots[|snaps|] == SnapshotRow(p, t, m);
  }

  /** A store keeps the uq_protocol_timestamp constraint. */
  lemma StoreKeepsUniqueKeys(snaps: seq<Snapshot>, p: string, t: int, m: Metrics, storageFails: bool)
    requires UniqueKeys(snaps)
    ensures UniqueKeys(Store(snaps, p, t, m, storageFails).snapshots)
  {
    if !storageFails && !HasKey(snaps, p, t) {
      var r := snaps + [SnapshotRow(p, t, m)];
      forall i, j | 0 <= i < j < |r|
        ensures r[i].protocol != r[j].protocol || r[i].timestamp != r[j].timestamp
      {
        if j == |snaps| {
          assert r[i] == snaps[i];
        } else {
          assert r[i] == snaps[i] && r[j] == snaps[j];
        }
      }
    }
  }

  /**
   * Storing the same (protocol, timestamp) again, whatever the metrics,
   * leaves the table as it was and reports success.
   */
  lemma StoreIdempotent(snaps: seq<Snapshot>, p: string, t: int, m1: Metrics, m2: Metrics)
    ensures var first := Store(snaps, p, t, m1, false).snapshots;
            Store(first, p, t, m2, false) == StoreResult(first, true)
  {
    var first := Store(snaps, p, t, m1, false).snapshots;
    if !HasKey(snaps, p, t) {
      assert first[|snaps|] == SnapshotRow(p, t, m1);
    }
    assert HasKey(first, p, t);
  }

  /** _store_snapshot: insert and commit, or roll back. */
  method StoreSnapshot(db: Db, p: string, t: int, m: Metrics, storageFails: bool) returns (ok: bool)
    requires db.Valid()
    modifies db
    ensures db.Valid() && db.alerts == old(db.alerts)
    ensures StoreResult(db.snapshots, ok) == Store(old(db.snapshots), p, t, m, storageFails)
  {
    if storageFails {
      return false;
    }
    if HasKey(db.snapshots, p, t) {
      return true;
    }
    StoreKeepsUniqueKeys(db.snapshots, p, t, m, false);
    db.snapshots := db.snapshots + [SnapshotRow(p, t, m)];
    ok := m.tvl.Some?;
  }

  /** _ingest_felix / _ingest_hlp: a fetch that raises is a failure and stores nothing. */
  function Ingested(snaps: seq<Snapshot>, p: string, t: int, fetch: Fetch, storageFails: bool): StoreResult {
    match fetch
    case FetchRaised => StoreResult(snaps, false)
    case Fetched(m) => Store(snaps, p, t, m, storageFails)
  }

  method IngestProtocol(db: Db, p: string, t: int, fetch: Fetch, storageFails: bool) returns (ok: bool)
    requires db.Valid()
    modifies db
    ensures db.Valid() && db.alerts == old(db.alerts)
    ensures StoreResult(db.snapshots, ok) == Ingested(old(db.snapshots), p, t, fetch, storageFails)
  {
    if fetch.FetchRaised? {
      return false;
    }
    ok := StoreSnapshot(db, p, t, fetch.metrics, storageFails);
  }

  // ---------------------------------------------------------------------------
  // The outcome tally of ingest_all
  // ---------------------------------------------------------------------------

  /** What one protocol's ingestion task produced: an exception, or its result. */
  datatype Outcome = Raised | Returned(value: bool)

  /** The number of outcomes that count as successful: a true result. */
  function Successes(outcomes: seq<Outcome>): nat {
    if outcomes == [] then 0
    else Successes(outcomes[..|outcomes| - 1]) + (if outcomes[|outcomes| - 1] == Returned(true) then 1 else 0)
  }

  /** There are at most as many successes as outcomes, and as many exactly when every outcome is a true result. */
  lemma {:induction false} SuccessesBound(outcomes: seq<Outcome>)
    ensures Successes(outcomes) <= |outcomes|
    ensures Successes(outcomes) == |outcomes| <==> forall i :: 0 <= i < |outcomes| ==> outcomes[i] == Returned(true)
  {
    if outcomes != [] {
      var init := outcomes[..|outcomes| - 1];
      SuccessesBound(init);
      assert forall i :: 0 <= i < |init| ==> init[i] == outcomes[i];
    }
  }

  /** The counting loop of ingest_all: each outcome counts once, as successful or as failed. */
  method Tally(outcomes: seq<Outcome>) returns (successful: nat, failed: nat)
    ensures successful == Successes(outcomes)
    ensures successful + failed == |outcomes|
  {
    successful, failed := 0, 0;
    var i := 0;
    while i < |outcomes|
      invariant 0 <= i <= |outcomes|
      invariant successful == Successes(outcomes[..i])
      invariant successful + failed == i
    {
      assert outcomes[..i + 1][..i] == outcomes[..i];
      match outcomes[i] {
        case Raised =>
          failed := failed + 1;
        case Returned(value) =>
          if value {
            successful := successful + 1;
          } else {
            failed := failed + 1;
          }
      }
      i := i + 1;
    }
    assert outcomes[..i] == outcomes;
  }

  // ---------------------------------------------------------------------------
  // ingest_all and main
  // ---------------------------------------------------------------------------

  /** The snapshot table after both protocols were ingested under run timestamp t. */
  function StoredRun(snaps: seq<Snapshot>, t: int, felix: Fetch, hlp: Fetch, felixFails: bool, hlpFails: bool): seq<Snapshot> {
    Ingested(Ingested(snaps, "felix", t, felix, felixFails).snapshots, "hlp", t, hlp, hlpFails).snapshots
  }

  /** A run only appends rows, of felix or hlp, all stamped with the run timestamp. */
  lemma StoredRunStamps(snaps: seq<Snapshot>, t: int, felix: Fetch, hlp: Fetch, felixFails: bool, hlpFails: bool)
    ensures var r := StoredRun(snaps, t, felix, hlp, felixFails, hlpFails);
            && |snaps| <= |r| <= |snaps| + 2 && r[..|snaps|] == snaps
            && forall k :: |snaps| <= k < |r| ==> r[k].timestamp == t && r[k].protocol in {"felix", "hlp"}
  {
    var s1 := Ingested(snaps, "felix", t, felix, felixFails).snapshots;
    var r := Ingested(s1, "hlp", t, hlp, hlpFails).snapshots;
    assert |snaps| <= |s1| <= |snaps| + 1 && s1[..|snaps|] == snaps;
    assert forall k :: |snaps| <= k < |s1| ==> felix.Fetched? && s1[k] == SnapshotRow("felix", t, felix.metrics);
    assert |s1| <= |r| <= |s1| + 1 && r[..|s1|] == s1;
    assert forall k :: |s1| <= k < |r| ==> hlp.Fetched? && r[k] == SnapshotRow("hlp", t, hlp.metrics);
    forall k | |snaps| <= k < |r| ensures r[k].timestamp == t && r[k].protocol in {"felix", "hlp"} {
      if k < |s1| {
        assert r[k] == s1[k];
      }
    }
  }

  /** Running again under the same run timestamp, after both fetches succeeded, adds no rows (ingestion is idempotent). */
  lemma StoredRunIdempotent(snaps: seq<Snapshot>, t: int, felix: Metrics, hlp: Metrics, felix2: Fetch, hlp2: Fetch)
    ensures var once := StoredRun(snaps, t, Fetched(felix), Fetched(hlp), false, false);
            StoredRun(once, t, felix2, hlp2, false, false) == once
  {
    var s1 := Store(snaps, "felix", t, felix, false).snapshots;
    var once := Store(s1, "hlp", t, hlp, false).snapshots;
    StoreIdempotent(snaps, "felix", t, felix, felix);
    assert HasKey(s1, "felix", t);
    assert HasKey(once, "felix", t) by {
      var i :| 0 <= i < |s1| && s1[i].protocol == "felix" && s1[i].timestamp == t;
      assert once[i] == s1[i];
    }
    StoreIdempotent(s1, "hlp", t, hlp, hlp);
    assert HasKey(once, "hlp", t);
    var s1' := Ingested(once, "felix", t, felix2, false).snapshots;
    assert s1' == once;
  }

  /**
   * ingest_all: store felix and then hlp under one run timestamp, count the
   * outcomes, then run one detection pass over the stored table.
   */
  method IngestAll(db: Db, cfg: Config, t: int, felix: Fetch, hlp: Fetch, felixFails: bool, hlpFails: bool,
                   detectNow: int, insertFails: set<AlertKey>) returns (successful: nat, failed: nat)
    requires db.Valid()
    modifies db
    ensures db.Valid()
    ensures var s1 := Ingested(old(db.snapshots), "felix", t, felix, felixFails);
            var s2 := Ingested(s1.snapshots, "hlp", t, hlp, hlpFails);
            && db.snapshots == s2.snapshots
            && db.alerts == DetectionPass(cfg, s2.snapshots, old(db.alerts), detectNow, insertFails)
            && successful == Successes([Returned(s1.ok), Returned(s2.ok)])
            && successful + failed == 2
  {
    var felixOk := IngestProtocol(db, "felix", t, felix, felixFails);
    var hlpOk := IngestProtocol(db, "hlp", t, hlp, hlpFails);
    successful, failed := Tally([Returned(felixOk), Returned(hlpOk)]);
    var created := DetectAll(db, cfg, detectNow, insertFails);
  }

  /** main: exit status 1 when some protocol failed, 0 otherwise. */
  function ExitCode(failed: nat): (code: int)
    ensures code == 0 || code == 1
    ensures code == 1 <==> failed > 0
  {
    if failed > 0 then 1 else 0
  }

  /** An ingestion succeeds when its fetch returned and its store succeeded (see StoreOutcomes). */
  predicate StoreSucceeds(snaps: seq<Snapshot>, p: string, t: int, fetch: Fetch, storageFails: bool) {
    fetch.Fetched? && !storageFails && (HasKey(snaps, p, t) || fetch.metrics.tvl.Some?)
  }

  lemma IngestedOk(snaps: seq<Snapshot>, p: string, t: int, fetch: Fetch, storageFails: bool)
    ensures Ingested(snaps, p, t, fetch, storageFails).ok <==> StoreSucceeds(snaps, p, t, fetch, storageFails)
  {
    if fetch.Fetched? {
      StoreOutcomes(snaps, p, t, fetch.metrics, storageFails);
    }
  }

  /** Storing felix's row does not change whether hlp's key is present. */
  lemma FelixStoreKeepsHlpKey(snaps: seq<Snapshot>, t: int, felix: Fetch, felixFails: bool)
    ensures HasKey(Ingested(snaps, "felix", t, felix, felixFails).snapshots, "hlp", t) <==> HasKey(snaps, "hlp", t)
  {
    var s1 := Ingested(snaps, "felix", t, felix, felixFails).snapshots;
    assert |snaps| <= |s1| && s1[..|snaps|] == snaps;
    assert forall k :: |snaps| <= k < |s1| ==> s1[k].protocol == "felix";
    if HasKey(s1, "hlp", t) {
      var i :| 0 <= i < |s1| && s1[i].protocol == "hlp" && s1[i].timestamp == t;
      assert snaps[i] == s1[i];
    }
    if HasKey(snaps, "hlp", t) {
      var i :| 0 <= i < |snaps| && snaps[i].protocol == "hlp" && snaps[i].timestamp == t;
      assert s1[i] == snaps[i];
    }
  }

  /**
   * A run, with the counts IngestAll returns, exits with 0 exactly when both
   * protocols' ingestions succeed on the table as it was before the run.
   */
  lemma RunExitCode(snaps: seq<Snapshot>, t: int, felix: Fetch, hlp: Fetch, felixFails: bool, hlpFails: bool,
                    successful: nat, failed: nat)
    requires var s1 := Ingested(snaps, "felix", t, felix, felixFails);
             var s2 := Ingested(s1.snapshots, "hlp", t, hlp, hlpFails);
             successful == Successes([Returned(s1.ok), Returned(s2.ok)])
    requires successful + failed == 2
    ensures ExitCode(failed) == 0 <==>
              StoreSucceeds(snaps, "felix", t, felix, felixFails) && StoreSucceeds(snaps, "hlp", t, hlp, hlpFails)
  {
    var s1 := Ingested(snaps, "felix", t, felix, felixFails);
    var s2 := Ingested(s1.snapshots, "hlp", t, hlp, hlpFails);
    IngestedOk(snaps, "felix", t, felix, felixFails);
    IngestedOk(s1.snapshots, "hlp", t, hlp, hlpFails);
    FelixStoreKeepsHlpKey(snaps, t, felix, felixFails);
    SuccessesBound([Returned(s1.ok), Returned(s2.ok)]);
  }
}
