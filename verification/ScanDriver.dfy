/** Steps 5 and 5b of run_scan: slice, metrics for the slice, persist with budget = cap. */
module ScanDriver {
  import opened Basics
  import opened Identity
  import opened Canonical
  import opened ScanStore
  import opened WalletMetrics
  import opened WalletSlice
  import opened WalletScores
  import opened ScanRuns

  function WithTrades(trades: seq<Trade>, slice: seq<string>): set<string> {
    set a | a in slice && OwnTrades(trades, a) != []
  }

  ghost predicate HasMetrics(env: Env, trades: seq<Trade>, metrics: map<string, Metrics>) {
    forall a :: a in metrics ==> OwnTrades(trades, a) != [] && metrics[a] == MetricsOf(env, OwnTrades(trades, a))
  }

  /** For a canonical address the metrics are those of its own rows. */
  method MetricsOfCanonical(db: Database, env: Env, address: string) returns (m: Option<Metrics>)
    requires IsCanonical(address)
    ensures m.Some? <==> OwnTrades(db.trades, address) != []
    ensures m.Some? ==> m.value == MetricsOf(env, OwnTrades(db.trades, address))
  {
    m := ComputeWalletMetrics(db, env, address);
  }

  lemma WithTradesStep(trades: seq<Trade>, slice: seq<string>, n: nat)
    requires n < |slice|
    ensures WithTrades(trades, slice[..n + 1])
            == WithTrades(trades, slice[..n]) + (if OwnTrades(trades, slice[n]) != [] then {slice[n]} else {})
  {
    assert slice[..n + 1] == slice[..n] + [slice[n]];
  }

  lemma ExtendMetrics(env: Env, trades: seq<Trade>, metrics: map<string, Metrics>, a: string, m: Metrics)
    requires HasMetrics(env, trades, metrics)
    requires OwnTrades(trades, a) != [] && m == MetricsOf(env, OwnTrades(trades, a))
    ensures HasMetrics(env, trades, metrics[a := m])
  {
  }

  /** The metrics of the sliced wallets that have trades. */
  method MetricsByAddress(db: Database, env: Env, slice: seq<string>) returns (metrics: map<string, Metrics>)
    requires forall a :: a in slice ==> IsCanonical(a)
    ensures metrics.Keys == WithTrades(db.trades, slice) && HasMetrics(env, db.trades, metrics)
  {
    metrics := map[];
    for n := 0 to |slice|
      invariant metrics.Keys == WithTrades(db.trades, slice[..n]) && HasMetrics(env, db.trades, metrics)
    {
      WithTradesStep(db.trades, slice, n);
      var m := MetricsOfCanonical(db, env, slice[n]);
      if m.Some? {
        ExtendMetrics(env, db.trades, metrics, slice[n], m.value);
        metrics := metrics[slice[n] := m.value];
      }
    }
    assert slice[..|slice|] == slice;
  }

  function KeysOfMetrics(env: Env, metrics: map<string, Metrics>): map<string, string> {
    map a | a in metrics :: IdempotencyKey(env, a, metrics[a])
  }

  lemma KeysAreCurrent(st: Store, env: Env, slice: seq<string>, metrics: map<string, Metrics>)
    requires metrics.Keys == WithTrades(st.trades, slice) && HasMetrics(env, st.trades, metrics)
    ensures KeysOfMetrics(env, metrics) == KeysAt(st, KeyOf(env), slice)
  {
  }

  /** Addresses without metrics do not matter to Step 5b. */
  lemma OnlyKeyedAddressesMatter(st: Store, job: Job, slice: seq<string>, scored: seq<string>)
    requires scored == Within(slice, job.keys.Keys)
    ensures AfterPersist(st, job, scored) == AfterPersist(st, job, slice)
    ensures Missing(st, job, scored) == Missing(st, job, slice)
    ensures Chosen(st, job, scored) == Chosen(st, job, slice)
  {
    var p := Pending(st, job, slice);
    assert Pending(st, job, scored) == p;
    WithinAscending(SortDistinct(slice), p);
    WithinAscending(SortDistinct(scored), p);
    AscendingUnique(Within(SortDistinct(slice), p), Within(SortDistinct(scored), p));
  }

  /** A pass over a slice that the budget pays for defers nothing, whatever fails. */
  lemma NothingDeferred(st: Store, job: Job, slice: seq<string>, scored: seq<string>, preloadFails: bool, s: Pass)
    requires job.budget.Some? && job.budget.value >= 0 && Fits(slice, job.budget.value) && scored == Within(slice, job.keys.Keys)
    requires Accounted(st, job, scored, preloadFails, s)
    ensures s.deferred == 0
  {
    WithinAscending(slice, job.keys.Keys);
    SortDistinctOfAscending(scored);
    LargeBudgetDefersNone(st, job, scored, preloadFails, s);
  }

  /** The sliced wallets that have metrics, and their keys. */
  method KeysOfSlice(db: Database, env: Env, slice: seq<string>) returns (keys: map<string, string>, scored: seq<string>)
    requires forall a :: a in slice ==> IsCanonical(a)
    ensures keys == KeysAt(db.Contents(), KeyOf(env), slice) && scored == Within(slice, keys.Keys)
  {
    var metrics := MetricsByAddress(db, env, slice);
    keys, scored := KeysOfMetrics(env, metrics), Within(slice, metrics.Keys);
    KeysAreCurrent(db.Contents(), env, slice, metrics);
  }

  /** Metrics and persistence for a slice that the budget pays for. */
  method ScoreSlice(db: Database, env: Env, slice: seq<string>, cap: nat, now: int, counters: ScanPipelineCounters,
                    failing: set<string>, preloadFails: bool)
    requires Valid(db.Contents()) && Fits(slice, cap) && forall a :: a in slice ==> IsCanonical(a)
    modifies db`decisions, counters
    ensures Valid(db.Contents())
    ensures db.Contents() == AfterSlice(old(db.Contents()), KeyOf(env), slice, cap, now, failing)
    ensures counters.walletScoresDeferred == old(counters.walletScoresDeferred)
  {
    ghost var st, before := db.Contents(), counters.walletScoresDeferred;
    var keys, scored := KeysOfSlice(db, env, slice);
    var job := Job(keys, now, Some(cap), failing);
    OnlyKeyedAddressesMatter(st, job, slice, scored);
    var applied := PersistWalletV1Decisions(db, job, scored, counters, preloadFails);
    ghost var s :| Accounted(st, job, scored, preloadFails, s) && s.deferred == counters.walletScoresDeferred - before;
    NothingDeferred(st, job, slice, scored, preloadFails, s);
  }

  /** One scoring run, with failures of the classification's queries, of Step 5b's pre-load and
      of any insert. With a positive cap the store moves by AfterRun. Without one, a non-empty
      corpus stops at the slice's assertion and nothing is written. Nothing is ever deferred,
      whatever fails: the slice is never longer than the budget that pays for it. */
  method ScoreBoundedSlice(
    db: Database, env: Env, corpus: seq<string>, maxWalletScores: Option<int>, now: int,
    counters: ScanPipelineCounters, lost: Lost, failing: set<string>, preloadFails: bool)
    returns (r: SliceResult)
    requires Valid(db.Contents())
    requires forall a :: a in corpus ==> IsCanonical(a)
    modifies db`decisions, counters
    ensures Valid(db.Contents())
    ensures r.AssertionFailed? <==> (maxWalletScores.None? || maxWalletScores.value <= 0) && corpus != []
    ensures maxWalletScores.None? || maxWalletScores.value <= 0 ==> db.Contents() == old(db.Contents())
    ensures maxWalletScores.Some? && maxWalletScores.value > 0 ==>
              db.Contents() == AfterRun(old(db.Contents()), KeyOf(env), corpus, maxWalletScores.value, now, failing, lost)
    ensures counters.walletScoresDeferred == old(counters.walletScoresDeferred)
  {
    ghost var st := db.Contents();
    r := ResolveBoundedWalletSlice(db, corpus, maxWalletScores, lost);
    if r.AssertionFailed? {
      return;
    }
    var slice := r.telemetry.addressesInSlice;
    if maxWalletScores.Some? && maxWalletScores.value > 0 {
      SliceUnderFits(st, corpus, maxWalletScores.value, lost);
      ScoreSlice(db, env, slice, maxWalletScores.value, now, counters, failing, preloadFails);
    } else {
      // The slice is empty, and so is the list of wallets to score.
      ghost var before := counters.walletScoresDeferred;
      var job := Job(map[], now, maxWalletScores, failing);
      var _ := PersistWalletV1Decisions(db, job, slice, counters, preloadFails);
      ghost var s :| Accounted(st, job, slice, preloadFails, s) && s.deferred == counters.walletScoresDeferred - before;
      LargeBudgetDefersNone(st, job, slice, preloadFails, s);
    }
  }
}
