# defi-monitor: anomaly detection and alert lifecycle, in Dafny

This project models the engine of defi-monitor. The engine reads a table of per-protocol metric snapshots (TVL, 7-day APY, utilization) and turns it into deduplicated, severity-tagged alerts. An operator can list those alerts and resolve them.

The model has these parts:

- **Models** (`models.dfy`): the two tables.
  - A `Snapshot` row and an `Alert` row.
  - The `(protocol_name, timestamp)` uniqueness constraint.
  - The open-alert predicate and the dedup key.
  - A `Db` class that holds both tables. Its invariant `Valid` covers unique snapshot keys, sequential alert ids and at most one open alert per (protocol, alert type).
- **AnomalyDetector** (`detector.dfy`): the detector.
  - Each rule's decision is a function over the snapshot table: active protocols, TVL drop, low APY, high utilization.
  - Each function has soundness and exactness lemmas.
  - A whole pass is also a function of the alert table (`DetectionPass`). It comes with lemmas on dedup, idempotence of a second pass, rule soundness and the shape of the result.
  - The source's imperative side is modelled as methods on `Db`: `CreateAlert`, the three `Check*` methods, `DetectProtocol`, and `DetectAll` with its loop. Each is proved against those functions.
- **Api** (`api.dfy`): the HTTP service.
  - Protocol status.
  - Alert listing and its filters.
  - `resolve_alert`, as a function and as a method that updates the row in place.
  - Protocol history, with its two error cases.
  - The protocol list, as a loop method.
  - The health counts.
- **Ingest** (`ingest.dfy`): one ingestion run.
  - The idempotent snapshot insert, which turns zero into NULL.
  - The outcome tally loop.
  - `IngestAll`, which stores both protocols under one run timestamp and then runs detection exactly once.
  - The exit code.
- **Scenarios** (`scenarios.dfy`): concrete passes under the default settings.
  - The demo crash from $100M to $50M gives exactly one critical `tvl_drop` alert.
  - A 15% fall gives none.
  - The APY minimum.
  - The lending-only utilization rule.
- **Collections** (`collections.dfy`): the SQL building blocks the queries use.
  - DISTINCT as `Distinct`: no duplicates, exactly the names that occur, and a count lemma.
  - WHERE as `Filter`, with its count and multiset lemmas.
  - A stable ORDER BY as `SortBy`, with its sortedness and permutation lemma.

How the model represents the source:

- **Time.** Instants are whole seconds (`int`). Each operation takes one explicit `now`.
- **Numbers.** Metric values are exact `real`s. Python truthiness is modelled by `Present`, under which NULL and zero both read as missing.
- **Settings.** The detector's settings are a `Config` value. `DefaultConfig` holds the defaults: 0.20, 2.0, 0.95 and 24 hours.
- **Failures.** A failing alert insert is a set `fails` of the dedup keys whose insert raises. A failing snapshot store is a boolean `storageFails`.
- **Fetches and outcomes.** Fetch results are inputs (`Fetch`), and so are the results of the two ingestion coroutines.
- **Stored names.** Alert types, severities and statuses are enumerations. They stand for the strings the source stores and reports: `tvl_drop`, `apy_low`, `utilization_high`; `critical`, `warning`, `info`; `healthy`, `warning`, `critical`.

Notes on the code as written, which the model follows:

- **The TVL rule uses the newest snapshots overall.** `latest` is the newest snapshot of the protocol. `old` is the newest one at or before the lookback instant. Neither one skips rows with a NULL TVL; a NULL or zero TVL on either one skips the rule (`TvlDropRuleSkips`).
- **Status precedence.** `_get_protocol_status` looks only at unresolved alerts, and critical wins over warning.
- **A snapshot with no TVL is stored but reported as failed.** `_store_snapshot` commits that row and then raises while formatting the TVL for the log line, so it returns False (`MissingTvlStoredButFailed`). Such a run therefore counts a failure and exits with 1.
- **The `apy_spike` comment.** The alert-type column comment mentions `apy_spike`, but the detector writes `apy_low`. The model uses the names the detector writes.

## Model

| member | source | states |
|---|---|---|
| Models.Nullify | ingest.py:131-133 | a NULL or zero metric becomes NULL; any other value is kept unchanged |
| Models.ProtocolNames | main.py:104-106 | the protocol name of every snapshot row, position by position |
| Models.Db.constructor | models.py:9-58 | an empty database satisfies the schema invariants (unique snapshot keys, sequential ids, one open alert per key) |
| Collections.Distinct | main.py:104-106 | SELECT DISTINCT: no duplicates, exactly the names that occur, never longer than the input |
| Collections.NoDuplicatesCard | main.py:79-81 | a duplicate-free list has as many entries as distinct values, so `count(distinct …)` is its length |
| Collections.SortBySpec | main.py:166 | ORDER BY returns a sorted permutation of the selected rows, of the same length |
| Collections.SortBy | main.py:166 | a stable ORDER BY, as insertion; its contract is `SortBySpec` |
| Collections.Filter | main.py:205-219 | a WHERE clause keeps exactly the rows satisfying it, never more rows than the table |
| Collections.FilterCount | main.py:83-85 | a WHERE clause keeps one row per index whose row satisfies it, so `count(...)` counts those indices |
| Collections.FilterMultiset | main.py:205-219 | a WHERE clause keeps every occurrence of a satisfying row and no occurrence of any other |
| AnomalyDetector.LatestSnapshotSpec | app/services/anomaly_detector.py:92-94 | `order_by(desc(timestamp)).first()` returns a newest qualifying snapshot, and None exactly when none qualifies |
| AnomalyDetector.LatestIsUnique | models.py:29-32 | under the uniqueness constraint there is exactly one newest snapshot per protocol and cutoff |
| AnomalyDetector.LatestSnapshotExact | app/services/anomaly_detector.py:100-103 | under the uniqueness constraint the query returns that newest snapshot |
| AnomalyDetector.ActiveProtocols | app/services/anomaly_detector.py:71-79 | exactly the distinct protocol names with a snapshot at or after now − 48h, each once |
| AnomalyDetector.LatestSnapshot | app/services/anomaly_detector.py:92-103 | the newest snapshot of a protocol, optionally at or before a cutoff; its contract is `LatestSnapshotSpec` and `LatestSnapshotExact` |
| AnomalyDetector.TvlDropRule | app/services/anomaly_detector.py:81-136 | a TVL decision is always a `critical` `tvl_drop` candidate for the protocol itself |
| AnomalyDetector.TvlDropRuleSound | app/services/anomaly_detector.py:92-129 | the TVL rule fires only on the (newest, newest-before-lookback) pair with both TVLs present and a drop strictly above the threshold, and reports both values |
| AnomalyDetector.TvlDropRuleExact | app/services/anomaly_detector.py:92-129 | with unique keys, the TVL rule fires if and only if that condition holds on the newest pair |
| AnomalyDetector.TvlDropRuleSkips | app/services/anomaly_detector.py:96-113 | no snapshot, no or zero latest TVL, no snapshot before the lookback instant, or no or zero old TVL each give no alert |
| AnomalyDetector.TvlDropIsStrict | app/services/anomaly_detector.py:115-117 | an unchanged or rising TVL, or a drop exactly at the threshold, never fires |
| AnomalyDetector.ApyLowRule | app/services/anomaly_detector.py:138-170 | an APY decision is always a `warning` `apy_low` candidate for the protocol itself |
| AnomalyDetector.ApyLowRuleSound | app/services/anomaly_detector.py:145-163 | the APY rule fires only when the newest snapshot's APY is present and strictly below the minimum, and reports that APY |
| AnomalyDetector.ApyLowRuleExact | app/services/anomaly_detector.py:145-163 | with unique keys, the APY rule fires if and only if that condition holds |
| AnomalyDetector.UtilizationHighRule | app/services/anomaly_detector.py:172-204 | a utilization decision is always a `warning` `utilization_high` candidate for the protocol itself |
| AnomalyDetector.UtilizationHighRuleSound | app/services/anomaly_detector.py:179-197 | the utilization rule fires only when the newest snapshot's rate is present and strictly above the maximum |
| AnomalyDetector.UtilizationHighRuleExact | app/services/anomaly_detector.py:179-197 | with unique keys, the utilization rule fires if and only if that condition holds |
| AnomalyDetector.ProtocolCandidatesFromRules | app/services/anomaly_detector.py:49-64 | each candidate for a protocol is its rule's decision with that rule's severity; a utilization candidate needs a lending protocol |
| AnomalyDetector.ProtocolCandidatesShape | app/services/anomaly_detector.py:49-64 | a protocol's candidates name that protocol and come in the order tvl, apy, utilization |
| AnomalyDetector.ProtocolRulesShape | app/services/anomaly_detector.py:49-64 | the same two facts, for every protocol at once |
| AnomalyDetector.ProtocolCandidates | app/services/anomaly_detector.py:50-64 | what one protocol's turn of the loop raises; its contract is `ProtocolCandidatesFromRules` and `ProtocolCandidatesShape` |
| AnomalyDetector.AllCandidates | app/services/anomaly_detector.py:47-64 | the candidates of a pass over a list of protocols; its contract is `PassCandidateIsSound` and `CandidatesUpToKeysDistinct` |
| AnomalyDetector.CandidatesUpToSource | app/services/anomaly_detector.py:49-64 | every candidate of the loop so far was raised for one of the protocols visited |
| AnomalyDetector.KeysDistinctAppend | app/services/anomaly_detector.py:49-64 | one more protocol's candidates keep all dedup keys of the pass distinct |
| AnomalyDetector.CandidatesUpToKeysDistinct | app/services/anomaly_detector.py:47-64 | over distinct protocols, no two candidates of a pass share a (protocol, alert type) key |
| AnomalyDetector.TryCreate | app/services/anomaly_detector.py:219-249 | an open alert with the same key, or a failing insert, leaves the table unchanged; otherwise the key is open afterwards; the one-open-per-key invariant is kept |
| AnomalyDetector.ApplyAll | app/services/anomaly_detector.py:219-244 | `_create_alert` tried for each candidate in turn; its contract is `ApplyAllAppends`, `ApplyAllCovers`, `SourceOf` and `ApplyAllIsFilteredCandidates` |
| AnomalyDetector.DetectionPass | app/services/anomaly_detector.py:36-66 | the alert table a `detect_all` pass leaves; its contract is `PassReturnsEligibleCandidates`, `PassAlertsAreSound` and `PassKeepsDedup` |
| AnomalyDetector.ApplyAllAppends | app/services/anomaly_detector.py:230-244 | a pass only appends rows, keeps ids sequential, makes every new row open and triggered now, and keeps the dedup invariant |
| AnomalyDetector.TryCreateKeepsOpen | app/services/anomaly_detector.py:219-228 | an existing open alert is never touched by a create |
| AnomalyDetector.ApplyAllCovers | app/services/anomaly_detector.py:219-244 | after a pass every candidate whose insert did not fail has an open alert |
| AnomalyDetector.ApplyAllNoop | app/services/anomaly_detector.py:226-228 | candidates that are all covered by open alerts create nothing |
| AnomalyDetector.SourceOf | app/services/anomaly_detector.py:219-244 | each row a pass adds was created for one of its candidates: that candidate's alert, with id = row + 1, whose key had no open alert before the pass and whose insert did not fail |
| AnomalyDetector.ApplyAllKeepsOpen | app/services/anomaly_detector.py:219-228 | a pass never closes an open alert |
| AnomalyDetector.Materialize | app/services/anomaly_detector.py:231-237 | the rows for a list of candidates have one dedup key per candidate, in order |
| AnomalyDetector.ApplyAllMirrorsCandidates | app/services/anomaly_detector.py:36-66 | with no candidate already open, distinct keys and no failing insert, a pass appends exactly one alert per candidate, in candidate order |
| AnomalyDetector.TryCreateEligible | app/services/anomaly_detector.py:226-237 | a candidate whose key is not open and whose insert succeeds is appended as the next row, with the next id |
| AnomalyDetector.TryCreateIneligible | app/services/anomaly_detector.py:226-249 | a candidate whose key is open, or whose insert fails, leaves the table as it is |
| AnomalyDetector.ApplyAllIsFilteredCandidates | app/services/anomaly_detector.py:219-244 | with distinct keys, a pass appends exactly one row per candidate whose key was not open and whose insert did not fail, in candidate order, with consecutive ids |
| AnomalyDetector.PassReturnsEligibleCandidates | app/services/anomaly_detector.py:36-66 | in general, a pass creates one alert per candidate whose key is not open and whose insert does not fail: protocol by protocol, and tvl, apy, utilization within one |
| AnomalyDetector.SecondPassIsEmpty | app/services/anomaly_detector.py:36-66 | a second pass at the same instant over unchanged snapshots, after one in which no insert failed, creates nothing |
| AnomalyDetector.ApplyAllTwice | app/services/anomaly_detector.py:219-249 | trying the same candidates again at the same instant only creates rows for keys whose first insert failed |
| AnomalyDetector.SecondPassRetriesOnlyFailures | app/services/anomaly_detector.py:36-66 | a second pass at the same instant over unchanged snapshots only creates alerts for keys whose insert failed in the first |
| AnomalyDetector.LaterPassSkipsOpenKeys | app/services/anomaly_detector.py:219-228 | a later pass, at any instant and over any snapshot table, creates no alert for a key the first pass raised or found open, since that alert is still open |
| AnomalyDetector.PassAlertsAreSound | app/services/anomaly_detector.py:36-66 | every alert a pass creates belongs to an active protocol, carries its rule's severity, is what its rule decided, and a utilization alert only goes to a lending protocol |
| AnomalyDetector.PassCandidateIsSound | app/services/anomaly_detector.py:47-64 | the same facts for each candidate of a pass |
| AnomalyDetector.PassKeepsDedup | app/services/anomaly_detector.py:219-228 | a pass keeps at most one open alert per (protocol, alert type) |
| AnomalyDetector.FreshPassReturnsAllCandidates | app/services/anomaly_detector.py:36-66 | with no open alert and no failing insert, a pass creates one alert per candidate: protocol by protocol, and tvl, apy, utilization within one |
| AnomalyDetector.CreateAlert | app/services/anomaly_detector.py:206-249 | `_create_alert` on the database: no change when the key is open or the insert fails; otherwise one open row with the next id, the given fields and `triggered_at = now`, which it returns |
| AnomalyDetector.RaiseCandidate | app/services/anomaly_detector.py:123-134 | a rule's decision handed to `_create_alert`; the returned alert is the appended row |
| AnomalyDetector.CheckTvlDrop | app/services/anomaly_detector.py:81-136 | `_check_tvl_drop` changes the alert table exactly as the TVL rule's decision says |
| AnomalyDetector.CheckApyLow | app/services/anomaly_detector.py:138-170 | `_check_apy_low` changes the alert table exactly as the APY rule's decision says |
| AnomalyDetector.CheckUtilizationHigh | app/services/anomaly_detector.py:172-204 | `_check_utilization_high` changes the alert table exactly as the utilization rule's decision says |
| AnomalyDetector.ApplyAllConcat | app/services/anomaly_detector.py:49-64 | trying two lists of candidates in turn is trying their concatenation |
| AnomalyDetector.ApplyAllProtocolCandidates | app/services/anomaly_detector.py:50-64 | trying a protocol's candidates is its turn of checks |
| AnomalyDetector.DetectProtocol | app/services/anomaly_detector.py:49-64 | one loop turn tries that protocol's candidates, and returns exactly the rows it appended |
| AnomalyDetector.DetectAll | app/services/anomaly_detector.py:36-66 | `detect_all` leaves the alert table as `DetectionPass` says, keeps the database invariants, and returns exactly the alerts it created |
| Api.StatusPrecedence | main.py:277-304 | critical exactly when an open critical alert exists; healthy exactly when every open alert is info; warning otherwise, which means an open warning and no open critical |
| Api.StatusIgnoresIrrelevant | main.py:285-299 | adding resolved alerts, open info alerts or other protocols' alerts never changes a status |
| Api.TvlDropMakesCritical | main.py:285-292 | a pass that creates a `tvl_drop` alert leaves that protocol's status critical |
| Api.StatusOf | main.py:277-304 | `_get_protocol_status` on the alert table; its contract is `StatusPrecedence` and `StatusIgnoresIrrelevant` |
| Api.FindAlert | main.py:252 | finds the first row with the id, and returns None exactly when no row has it |
| Api.FindAlertSequential | main.py:252 | with sequential ids, alert id is at row id − 1 |
| Api.ResolveOutcomes | main.py:252-258 | not-found exactly when no row has the id; already-resolved exactly when the row with the id is resolved |
| Api.Resolve | main.py:252-262 | `resolve_alert` on the alert table; its contract is `ResolveOutcomes`, `ResolveOnlyTarget` and `ResolveKeepsInvariants` |
| Api.ResolveOnlyTarget | main.py:260-262 | a successful resolve sets `resolved_at = now` on that open alert and changes no other field and no other row |
| Api.ResolveTwiceRejected | main.py:257-258 | resolving the same id a second time is always rejected |
| Api.ResolveKeepsRows | main.py:260-262 | a resolve keeps every id, and every row it leaves open is unchanged |
| Api.ClosingNeverWorsensStatus | main.py:285-299 | closing alerts, while leaving every open row as it was, never raises a protocol's status |
| Api.ResolveKeepsInvariants | main.py:252-262 | a resolve keeps ids sequential and one open alert per key, and never raises a protocol's status |
| Api.ResolveAlert | main.py:252-262 | the endpoint on the database: on failure nothing changes and the error is returned; on success the row is updated in place and returned |
| Api.GetAlertsSpec | main.py:205-222 | every alert that passes the status, protocol (when given and non-empty) and severity filters appears as often as in the table, no other appears, and the list is ordered by `triggered_at` descending |
| Api.GetAlerts | main.py:205-222 | `get_alerts` on the alert table; its contract is `GetAlertsSpec` |
| Api.Points | main.py:168-175 | one history point per row, in order, with zero metrics reported as missing |
| Api.GetProtocolHistoryErrors | main.py:136-158 | `days` outside 1..365 is rejected first; then a name with no snapshot gives not-found; otherwise the call succeeds |
| Api.GetProtocolHistory | main.py:134-175 | `get_protocol_history` on the snapshot table; its contract is `GetProtocolHistoryErrors` and `GetProtocolHistorySpec` |
| Api.GetProtocolHistorySpec | main.py:161-175 | a history holds one point per snapshot of that protocol at or after now − days, nothing else, in ascending timestamp order |
| Api.HistoryRows | main.py:161-175 | the rows of the history query, as points; its contract is `HistoryRowsSpec` |
| Api.HistoryRowsSpec | main.py:161-175 | the history rows hold one point per snapshot of the protocol at or after the cutoff, nothing else, in ascending timestamp order |
| Api.HistoryRowsSound | main.py:163-166 | every history point comes from a selected snapshot |
| Api.HistoryRowsComplete | main.py:163-166 | every selected snapshot has its point in the history |
| Api.HistoryRowsCount | main.py:163-166 | a history has one point per selected index |
| Api.HistoryPointSource | main.py:163-175 | the k-th point is the point of some selected snapshot |
| Api.HistoryPointPresent | main.py:163-175 | a selected snapshot's point is in the history |
| Api.HistoryRowsSorted | main.py:166 | the history is in ascending timestamp order |
| Api.SummaryOf | main.py:122-128 | one entry of the protocol list; its contract is `NamedProtocolHasLatest` |
| Api.NamedProtocolHasLatest | main.py:111-128 | a name that occurs in the table has a newest snapshot, and the entry built from it has that snapshot's nullified metrics and the protocol's status |
| Api.ListedNames | main.py:104-110 | a list of the distinct names lists each protocol once, and exactly the protocols that have a snapshot |
| Api.GetProtocols | main.py:104-128 | one entry per distinct protocol name, in order, each built from its newest snapshot with NULL or zero metrics as None and the status from `_get_protocol_status`; a protocol is listed exactly when it has a snapshot |
| Api.HealthCheckCounts | main.py:79-91 | `protocols_monitored` is the number of distinct snapshot protocols; `active_alerts` the number of alerts with `resolved_at` NULL |
| Api.HealthCheck | main.py:79-91 | the health summary; its contract is `HealthCheckCounts` |
| Ingest.StoreOutcomes | ingest.py:113-151 | a storage error stores nothing; a duplicate key stores nothing; anything else appends one row for (protocol, timestamp); success exactly when there was no storage error and the key already existed or the TVL was present |
| Ingest.Store | ingest.py:113-154 | `_store_snapshot` on the snapshot table; its contract is `StoreOutcomes`, `StoreNullifies`, `StoreKeepsUniqueKeys` and `StoreIdempotent` |
| Ingest.MissingTvlStoredButFailed | ingest.py:136-151 | a new row without a TVL is committed, yet the store reports failure |
| Ingest.StoreNullifies | ingest.py:128-134 | each stored metric is NULL exactly when the fetched one was missing or zero, and equal to it otherwise |
| Ingest.StoreKeepsUniqueKeys | models.py:29-32 | a store keeps `(protocol_name, timestamp)` unique |
| Ingest.StoreIdempotent | ingest.py:142-146 | storing the same (protocol, timestamp) again, whatever the metrics, leaves the table unchanged and reports success |
| Ingest.StoreSnapshot | ingest.py:113-154 | `_store_snapshot` on the database: the alert table and invariants are kept, and the snapshot table and result are those of `Store` |
| Ingest.IngestProtocol | ingest.py:83-111 | a fetch that raises stores nothing and reports failure; otherwise the metrics are stored |
| Ingest.Ingested | ingest.py:83-111 | `_ingest_felix` and `_ingest_hlp` on the snapshot table; its contract is `IngestedOk` and `IngestProtocol` |
| Ingest.SuccessesBound | ingest.py:64-74 | there are at most as many successes as outcomes, and exactly as many when every outcome is a true result |
| Ingest.Successes | ingest.py:64-74 | the number of outcomes counted as successful; its contract is `SuccessesBound` and `Tally` |
| Ingest.Tally | ingest.py:64-74 | the loop counts true results as successful and exceptions and false results as failed, so `successful + failed` is the number of outcomes |
| Ingest.StoredRunStamps | ingest.py:50-60 | a run only appends rows, at most two, of felix or hlp, all stamped with the one run timestamp |
| Ingest.StoredRun | ingest.py:50-60 | the snapshot table after both ingestions; its contract is `StoredRunStamps` and `StoredRunIdempotent` |
| Ingest.StoredRunIdempotent | ingest.py:113-146 | repeating a run under the same timestamp after both fetches succeeded adds no row |
| Ingest.IngestAll | ingest.py:43-81 | stores felix and then hlp under one timestamp, counts both outcomes (summing to 2), then runs detection exactly once over the stored table, whatever the store results |
| Ingest.ExitCode | ingest.py:176-181 | the exit status is 0 or 1, and 1 exactly when some protocol failed |
| Ingest.IngestedOk | ingest.py:83-151 | a protocol's ingestion succeeds exactly when its fetch returned and its store succeeded |
| Ingest.FelixStoreKeepsHlpKey | ingest.py:57-60 | storing felix's row does not change whether hlp's key is present |
| Ingest.RunExitCode | ingest.py:64-81 | with `IngestAll`'s counts, the run exits with 0 exactly when both ingestions succeed |
| Scenarios.CrashRaisesOneCriticalAlert | scripts/demo_alert.py:59-64 | $100M 24h05m ago and $50M now give exactly one critical `tvl_drop` alert, with a 50% drop and both values |
| Scenarios.CrashMakesFelixCritical | main.py:285-292 | after that crash felix's status is critical |
| Scenarios.SmallDropRaisesNothing | app/services/anomaly_detector.py:115-117 | a 15% fall raises nothing under the 20% threshold |
| Scenarios.ApyMinimum | app/services/anomaly_detector.py:152-163 | APY 1.5 raises one `apy_low` warning, APY 2.5 raises nothing |
| Scenarios.UtilizationOnlyForLending | app/services/anomaly_detector.py:60-64 | utilization 0.99 raises a warning for felix and nothing for hlp |
| Scenarios.HistoryRules | app/services/anomaly_detector.py:81-204 | on a two-snapshot history each rule decides by comparing the newer row (and, for TVL, the older row) with its threshold, and the pass tries exactly that protocol's candidates |
| Scenarios.HistoryActive | app/services/anomaly_detector.py:71-79 | the only active protocol of a two-snapshot history is its own |
| Scenarios.QuietHistory | app/services/anomaly_detector.py:36-204 | when no rule's condition holds on a two-snapshot history, the pass raises nothing |
| Scenarios.TvlOnlyHistory | app/services/anomaly_detector.py:81-136 | when only the TVL condition holds, the pass raises exactly that critical alert, as alert 1 |
| Scenarios.ApyOnlyHistory | app/services/anomaly_detector.py:138-170 | when only the APY condition holds, the pass raises exactly that warning, as alert 1 |
| Scenarios.UtilizationOnlyHistory | app/services/anomaly_detector.py:172-204 | when only the utilization condition holds, for a lending protocol, the pass raises exactly that warning, as alert 1 |

## Left out

- **HTTP fetchers** (fetchers/). These are network clients and random mocks. Their results are inputs to `IngestProtocol` and `IngestAll`.
- **The Slack notifier and the scripts.** The demo numbers are used only in `Scenarios`.
- **Concurrency.**
  - The `asyncio.gather` fan-out is modelled as felix and then hlp, one after the other. The two tasks write different keys, so only the order of rows in the table depends on this.
  - The race between the check and the insert in `_create_alert` is not modelled, because the model has a single writer.
- **The database layer.**
  - SQLAlchemy sessions, commit, refresh and rollback are not modelled; a rolled-back operation simply leaves its table unchanged.
  - Errors other than those modelled are not modelled: only a failing snapshot store (`storageFails`) and a failing alert insert (`fails`) are.
  - Ids are sequential autoincrement values; rows are never deleted.
- **Floating point and Decimal.** Values are exact reals, so rounding in `float(Decimal)` is not modelled.
- **Alert message text.** A message keeps the values its sentence is formatted from (`Message`), not the text itself.
- **The wall clock.** `datetime.now` becomes an explicit `now`, used once per operation. In the source, each check reads the clock separately during a pass. `IngestAll` takes the run timestamp and the detection instant as separate inputs.
- **Logging, and exceptions raised by the detector.** In the model, detection raises nothing, so `_run_anomaly_detection` swallowing exceptions needs no counterpart.
- **Distinct, ActiveProtocols, GetProtocols: the order of DISTINCT rows.** SQL's DISTINCT returns rows in no fixed order, and the database may return them in any order. The model always returns names in the order they first appear in the snapshot table. That order fixes the order of the alerts `DetectAll` creates and their ids, and the order of `GetProtocols`' entries. Which names, which alert keys and which entries appear does not depend on it.
- **ORDER BY ties.** The database's order among rows with equal sort keys is unspecified; the model keeps table order among ties (`SortBy` is stable).
- **Request validation.** FastAPI's 422 rejection of `days` outside 1..365 is modelled as the `InvalidDays` error. Likewise the 404 and 400 HTTP errors are `ProtocolNotFound`, `AlertNotFound` and `AlreadyResolved`.
- **Settings loading** (app/core/config.py). Its defaults are `DefaultConfig`. FastAPI routing, CORS and static files are left out, as are response schemas (app/models/schemas.py), whose name sets inform the enums.
- **Query-parameter validation for alerts.** The literal checks on `status` and `severity` are enforced by the enum types `StatusFilter` and `Severity`, so there is no error case for them. An empty `protocol` string filters nothing, like the source's `if protocol:` test.
