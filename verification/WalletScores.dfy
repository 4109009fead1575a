/** Step 5b (persist_wallet_v1_decisions): append-only decision rows behind an idempotency
    key, a pre-loaded cache and a budget. */
module WalletScores {
  import opened Basics
  import opened ScanStore
  import opened KeyCache
  import opened WalletSlice

  /** One call: the idempotency key of every address with metrics, the clock, the budget,
      and the addresses whose insert raises. */
  datatype Job = Job(keys: map<string, string>, now: int, budget: Option<int>, failing: set<string>)

  /** Addresses the loop does not skip: they have metrics and a wallets row. */
  predicate Reached(st: Store, job: Job, a: string) {
    a in job.keys && a in st.wallets
  }

  predicate UpToDate(st: Store, job: Job, a: string)
    requires Reached(st, job, a)
  {
    Tabled(st.decisions, st.wallets[a], job.keys[a])
  }

  function Reusable(st: Store, job: Job, addresses: seq<string>): set<string> {
    set a | a in addresses && Reached(st, job, a) && UpToDate(st, job, a)
  }

  /** Addresses without a row for their current metrics. */
  function Missing(st: Store, job: Job, addresses: seq<string>): set<string> {
    set a | a in addresses && Reached(st, job, a) && !UpToDate(st, job, a)
  }

  /** Those of them whose insert does not raise. */
  function Pending(st: Store, job: Job, addresses: seq<string>): set<string> {
    Missing(st, job, addresses) - job.failing
  }

  function Limit<T>(budget: Option<int>, s: seq<T>): seq<T> {
    match budget
    case None => s
    case Some(b) => if b <= 0 then [] else Take(b, s)
  }

  /** The first pending addresses, in address order, that the budget pays for. */
  function Chosen(st: Store, job: Job, addresses: seq<string>): seq<string> {
    Limit(job.budget, Within(SortDistinct(addresses), Pending(st, job, addresses)))
  }

  function RowFor(st: Store, job: Job, a: string): Decision
    requires Reached(st, job, a)
  {
    Decision(st.wallets[a], V1, job.keys[a], job.now)
  }

  function RowsFor(st: Store, job: Job, xs: seq<string>): seq<Decision>
    requires forall x :: x in xs ==> Reached(st, job, x)
  {
    seq(|xs|, i requires 0 <= i < |xs| => RowFor(st, job, xs[i]))
  }

  lemma ChosenReached(st: Store, job: Job, addresses: seq<string>)
    ensures forall x :: x in Chosen(st, job, addresses) ==>
              x in Pending(st, job, addresses) && Reached(st, job, x)
    ensures Ascending(Chosen(st, job, addresses))
  {
    WithinAscending(SortDistinct(addresses), Pending(st, job, addresses));
    var p := Within(SortDistinct(addresses), Pending(st, job, addresses));
    assert forall x :: x in Chosen(st, job, addresses) ==> x in p;
  }

  /** The table after the call. */
  function AfterPersist(st: Store, job: Job, addresses: seq<string>): Store {
    ChosenReached(st, job, addresses);
    st.(decisions := st.decisions + RowsFor(st, job, Chosen(st, job, addresses)))
  }

  // ---- one iteration -----------------------------------------------------------------------

  /** Rows written for other wallets do not decide whether this wallet is up to date. */
  lemma RowsOfOthers(st: Store, job: Job, xs: seq<string>, a: string, key: string)
    requires WalletsValid(st.wallets) && a in st.wallets && a !in xs
    requires forall x :: x in xs ==> Reached(st, job, x)
    ensures Tabled(st.decisions + RowsFor(st, job, xs), st.wallets[a], key)
            <==> Tabled(st.decisions, st.wallets[a], key)
  {
    var rows, w := st.decisions + RowsFor(st, job, xs), st.wallets[a];
    if Tabled(rows, w, key) {
      var i :| 0 <= i < |rows| && IsV1(rows[i], w) && rows[i].key == key;
      forall j | 0 <= j < |xs| ensures RowsFor(st, job, xs)[j].wallet != w {
        assert xs[j] in xs && Reached(st, job, xs[j]);
      }
      assert IsV1(st.decisions[i], w);
    }
    if Tabled(st.decisions, w, key) {
      var i :| 0 <= i < |st.decisions| && IsV1(st.decisions[i], w) && st.decisions[i].key == key;
      assert IsV1(rows[i], w);
    }
  }

  lemma TabledIsIdentity(rows: seq<Decision>, w: string, key: string, stamp: int)
    ensures Tabled(rows, w, key) <==> exists r :: r in rows && SameIdentity(r, Decision(w, V1, key, stamp))
  {
    if Tabled(rows, w, key) {
      var i :| 0 <= i < |rows| && IsV1(rows[i], w) && rows[i].key == key;
      assert rows[i] in rows;
    }
    if r :| r in rows && SameIdentity(r, Decision(w, V1, key, stamp)) {
      var i :| 0 <= i < |rows| && rows[i] == r;
      assert IsV1(rows[i], w);
    }
  }

  lemma RowsSnoc(st: Store, job: Job, xs: seq<string>, a: string)
    requires forall x :: x in xs + [a] ==> Reached(st, job, x)
    requires forall x :: x in xs ==> Reached(st, job, x)
    ensures Reached(st, job, a)
    ensures RowsFor(st, job, xs + [a]) == RowsFor(st, job, xs) + [RowFor(st, job, a)]
  {
    assert a in xs + [a];
  }

  lemma LimitSnoc<T>(budget: Option<int>, s: seq<T>, x: T)
    ensures Limit(budget, s + [x])
            == if budget.None? || |Limit(budget, s)| < budget.value then Limit(budget, s) + [x] else Limit(budget, s)
    ensures budget.Some? && |Limit(budget, s)| < budget.value ==> Limit(budget, s) == s
  {
  }

  class ScanPipelineCounters {
    var walletScoreDecisionsPersisted: nat
    var walletScoreDecisionsReused: nat
    var walletScoresDeferred: nat
    var freshInsertWalletIds: seq<string>

    constructor ()
      ensures walletScoreDecisionsPersisted == walletScoreDecisionsReused == walletScoresDeferred == 0
      ensures freshInsertWalletIds == []
    {
      walletScoreDecisionsPersisted, walletScoreDecisionsReused, walletScoresDeferred := 0, 0, 0;
      freshInsertWalletIds := [];
    }
  }

  /** These are the wallets of the rows, in order. */
  ghost predicate NamesRows(ids: seq<string>, rows: seq<Decision>) {
    |ids| == |rows| && forall i :: 0 <= i < |rows| ==> ids[i] == rows[i].wallet
  }

  datatype StepResult = Reuse | Collide | Defer | Fail | Insert

  /** Score one address: the straight-line part of the loop body. The pair is either found
      in the cache, deferred, or offered to INSERT OR IGNORE, which may raise. */
  method ScoreOne(db: Database, cache: set<string>, w: string, key: string, now: int, raises: bool, exhausted: bool)
    returns (outcome: StepResult)
    requires Valid(db.Contents())
    modifies db`decisions
    ensures Valid(db.Contents())
    ensures outcome == if Combo(w, key) in cache then Reuse
                       else if exhausted then Defer
                       else if raises then Fail
                       else if Tabled(old(db.decisions), w, key) then Collide else Insert
    ensures db.decisions == old(db.decisions) + (if outcome == Insert then [Decision(w, V1, key, now)] else [])
  {
    if Combo(w, key) in cache {
      return Reuse;
    }
    if exhausted {
      return Defer;
    }
    if raises {
      return Fail;
    }
    TabledIsIdentity(db.decisions, w, key, now);
    var before := |db.decisions|;
    db.InsertOrIgnore(Decision(w, V1, key, now));
    var after := |db.decisions|;
    outcome := if after > before then Insert else Collide;
  }

  lemma WithinSize(sorted: seq<string>, keep: set<string>)
    requires Ascending(sorted) && forall x :: x in keep ==> x in sorted
    ensures |Within(sorted, keep)| == |keep|
  {
    AscendingNoDuplicates(sorted);
    WithinNoDuplicates(sorted, keep);
    SizeOfElements(Within(sorted, keep));
    assert Elements(Within(sorted, keep)) == keep;
  }

  /** What happens to one address, by the table as it was before the call: a failed pre-load
      sends even the addresses that are up to date to the budget and the insert. */
  function Expected(st: Store, job: Job, a: string, spent: bool, preloadFails: bool): StepResult
    requires Reached(st, job, a)
  {
    if UpToDate(st, job, a) && !preloadFails then Reuse
    else if spent then Defer
    else if a in job.failing then Fail
    else if UpToDate(st, job, a) then Collide
    else Insert
  }

  /** The loop's variables, with the table they are compared with. */
  datatype Pass = Pass(
    cache: set<string>, budget: Option<int>, rows: seq<Decision>,
    persisted: int, reused: int, deferred: int, applied: int, ids: seq<string>)
  {
    /** How one outcome updates them. */
    function After(w: string, key: string, now: int, outcome: StepResult): Pass {
      match outcome
      case Reuse => this.(reused := reused + 1)
      case Defer => this.(deferred := deferred + 1)
      case Fail => this
      case Insert => Pass(
        cache + {Combo(w, key)}, if budget.Some? then Some(budget.value - 1) else None,
        rows + [Decision(w, V1, key, now)], persisted + 1, reused, deferred, applied + 1, ids + [w])
      case Collide => this.(cache := cache + {Combo(w, key)}, reused := reused + 1, applied := applied + 1)
    }
  }

  /** The pending addresses among the first n, cut off by the budget. */
  function ChosenUpTo(st: Store, job: Job, sorted: seq<string>, n: nat): seq<string>
    requires n <= |sorted|
  {
    Limit(job.budget, Within(sorted[..n], Pending(st, job, sorted)))
  }

  /** When address n has its turn the budget is used up. */
  predicate SpentAt(st: Store, job: Job, sorted: seq<string>, n: nat)
    requires n <= |sorted|
  {
    job.budget.Some? && |ChosenUpTo(st, job, sorted, n)| >= job.budget.value
  }

  /** How many of the first n addresses have this outcome. */
  function CountOf(st: Store, job: Job, sorted: seq<string>, n: nat, preloadFails: bool, o: StepResult): nat
    requires n <= |sorted|
  {
    if n == 0 then 0
    else
      var a := sorted[n - 1];
      CountOf(st, job, sorted, n - 1, preloadFails, o)
      + (if Reached(st, job, a) && Expected(st, job, a, SpentAt(st, job, sorted, n - 1), preloadFails) == o then 1 else 0)
  }

  /** The cache texts were all added for addresses already visited. */
  ghost predicate FromVisited(st: Store, job: Job, visited: seq<string>, cache: set<string>) {
    forall c :: c in cache ==> exists x :: x in visited && Reached(st, job, x) && c == Combo(st.wallets[x], job.keys[x])
  }

  lemma VisitedAreOthers(st: Store, job: Job, visited: seq<string>, cache: set<string>, a: string)
    requires WalletsValid(st.wallets) && FromVisited(st, job, visited, cache) && Reached(st, job, a) && a !in visited
    ensures Combo(st.wallets[a], job.keys[a]) !in cache
  {
    if Combo(st.wallets[a], job.keys[a]) in cache {
      var x :| x in visited && Reached(st, job, x)
               && Combo(st.wallets[a], job.keys[a]) == Combo(st.wallets[x], job.keys[x]);
      ComboInjective(st.wallets[a], job.keys[a], st.wallets[x], job.keys[x]);
    }
  }

  lemma FromVisitedGrows(st: Store, job: Job, visited: seq<string>, cache: set<string>, a: string, added: bool)
    requires FromVisited(st, job, visited, cache) && Reached(st, job, a)
    ensures FromVisited(st, job, visited + [a],
                        if added then cache + {Combo(st.wallets[a], job.keys[a])} else cache)
  {
    assert a in visited + [a];
    assert forall x :: x in visited ==> x in visited + [a];
  }

  /** The table holds the rows of the chosen addresses and the cache represents the table. */
  ghost predicate InStep(st: Store, job: Job, ids: set<string>, chosen: seq<string>, preloadFails: bool, s: Pass) {
    && (forall x :: x in chosen ==> Reached(st, job, x))
    && s.rows == st.decisions + RowsFor(st, job, chosen)
    && NamesRows(s.ids, RowsFor(st, job, chosen))
    && s.cache <= Cache(s.rows, ids)
    && (!preloadFails ==> s.cache == Cache(s.rows, ids))
  }

  /** The counters count the expected outcomes of the first n addresses. */
  ghost predicate Counted(st: Store, job: Job, sorted: seq<string>, n: nat, chosen: nat, preloadFails: bool, s: Pass)
    requires n <= |sorted|
  {
    && s.budget == (if job.budget.None? then None else Some(job.budget.value - chosen))
    && s.persisted == chosen == CountOf(st, job, sorted, n, preloadFails, Insert)
    && s.reused == CountOf(st, job, sorted, n, preloadFails, Reuse) + CountOf(st, job, sorted, n, preloadFails, Collide)
    && s.deferred == CountOf(st, job, sorted, n, preloadFails, Defer)
    && s.applied == chosen + CountOf(st, job, sorted, n, preloadFails, Collide)
  }

  ghost predicate Progress(st: Store, job: Job, sorted: seq<string>, n: nat, preloadFails: bool, s: Pass) {
    && n <= |sorted|
    && (forall x :: x in ChosenUpTo(st, job, sorted, n) ==> x in sorted[..n])
    && InStep(st, job, IdsOf(st.wallets, sorted), ChosenUpTo(st, job, sorted, n), preloadFails, s)
    && (preloadFails ==> FromVisited(st, job, sorted[..n], s.cache))
    && Counted(st, job, sorted, n, |ChosenUpTo(st, job, sorted, n)|, preloadFails, s)
  }

  predicate Exhausted(budget: Option<int>) {
    budget.Some? && budget.value <= 0
  }

  /** What happens to one address: found in the cache, deferred, or offered to the table. */
  function Decide(job: Job, s: Pass, a: string, w: string, key: string): StepResult {
    if Combo(w, key) in s.cache then Reuse
    else if Exhausted(s.budget) then Defer
    else if a in job.failing then Fail
    else if Tabled(s.rows, w, key) then Collide
    else Insert
  }

  /** One iteration. */
  function Visit(wallets: map<string, string>, job: Job, s: Pass, a: string): Pass {
    if a !in job.keys || a !in wallets then s
    else s.After(wallets[a], job.keys[a], job.now, Decide(job, s, a, wallets[a], job.keys[a]))
  }

  /** The loop as a fold over the first n addresses. */
  function Fold(wallets: map<string, string>, job: Job, sorted: seq<string>, n: nat, start: Pass): Pass
    requires n <= |sorted|
  {
    if n == 0 then start else Visit(wallets, job, Fold(wallets, job, sorted, n - 1, start), sorted[n - 1])
  }

  /** Skipped addresses change nothing. */
  lemma SkipKeeps(st: Store, job: Job, sorted: seq<string>, n: nat, preloadFails: bool, s: Pass)
    requires n < |sorted| && Progress(st, job, sorted, n, preloadFails, s)
    requires !Reached(st, job, sorted[n])
    ensures Progress(st, job, sorted, n + 1, preloadFails, s)
  {
    WithinSnoc(sorted, n, Pending(st, job, sorted));
    assert sorted[..n + 1] == sorted[..n] + [sorted[n]];
  }

  /** The chosen addresses grow by this one exactly when its row is inserted. */
  lemma ChosenGrows(st: Store, job: Job, sorted: seq<string>, n: nat, outcome: StepResult, exhausted: bool, preloadFails: bool)
    requires n < |sorted| && Reached(st, job, sorted[n])
    requires exhausted <==> SpentAt(st, job, sorted, n)
    requires outcome == Expected(st, job, sorted[n], exhausted, preloadFails)
    ensures ChosenUpTo(st, job, sorted, n + 1)
            == ChosenUpTo(st, job, sorted, n) + (if outcome == Insert then [sorted[n]] else [])
  {
    var pending := Pending(st, job, sorted);
    WithinSnoc(sorted, n, pending);
    LimitSnoc(job.budget, Within(sorted[..n], pending), sorted[n]);
    assert sorted[n] in sorted;
    if sorted[n] !in pending {
      assert Within(sorted[..n + 1], pending) == Within(sorted[..n], pending);
    }
  }

  /** Which outcome a visit has, and how the chosen addresses grow. */
  lemma VisitDecides(st: Store, job: Job, sorted: seq<string>, n: nat, preloadFails: bool, s: Pass)
    requires WalletsValid(st.wallets) && Ascending(sorted)
    requires n < |sorted| && Progress(st, job, sorted, n, preloadFails, s)
    requires Reached(st, job, sorted[n])
    ensures var w, key := st.wallets[sorted[n]], job.keys[sorted[n]];
            var outcome := Decide(job, s, sorted[n], w, key);
            && outcome == Expected(st, job, sorted[n], SpentAt(st, job, sorted, n), preloadFails)
            && ChosenUpTo(st, job, sorted, n + 1)
               == ChosenUpTo(st, job, sorted, n) + (if outcome == Insert then [sorted[n]] else [])
            && (outcome == Collide ==> Combo(w, key) in Cache(s.rows, IdsOf(st.wallets, sorted)))
  {
    var a, ids, chosen := sorted[n], IdsOf(st.wallets, sorted), ChosenUpTo(st, job, sorted, n);
    var outcome := Decide(job, s, a, st.wallets[a], job.keys[a]);
    NotYetChosen(sorted, n, chosen);
    if preloadFails {
      NotYetChosen(sorted, n, sorted[..n]);
      VisitedAreOthers(st, job, sorted[..n], s.cache, a);
    }
    OutcomeDecided(st, job, ids, s.cache, s.rows, chosen, a, outcome, Exhausted(s.budget), preloadFails);
    ChosenGrows(st, job, sorted, n, outcome, Exhausted(s.budget), preloadFails);
  }

  /** An insert adds one row, one wallet id and one cache text. */
  lemma InsertStaysInStep(st: Store, job: Job, ids: set<string>, chosen: seq<string>, a: string, preloadFails: bool, s: Pass)
    requires InStep(st, job, ids, chosen, preloadFails, s)
    requires Reached(st, job, a) && st.wallets[a] in ids
    ensures InStep(st, job, ids, chosen + [a], preloadFails, s.After(st.wallets[a], job.keys[a], job.now, Insert))
  {
    RowsSnoc(st, job, chosen, a);
    assert (chosen + [a])[..|chosen|] == chosen;
    CacheFollowsInsert(s.rows, ids, st.wallets[a], job.keys[a], job.now);
  }

  /** Each visit adds one to the counter of its outcome. */
  lemma VisitCounts(st: Store, job: Job, sorted: seq<string>, n: nat, chosen: nat, preloadFails: bool, s: Pass,
                    outcome: StepResult)
    requires n < |sorted| && Reached(st, job, sorted[n]) && Counted(st, job, sorted, n, chosen, preloadFails, s)
    requires outcome == Expected(st, job, sorted[n], SpentAt(st, job, sorted, n), preloadFails)
    ensures Counted(st, job, sorted, n + 1, if outcome == Insert then chosen + 1 else chosen, preloadFails,
                    s.After(st.wallets[sorted[n]], job.keys[sorted[n]], job.now, outcome))
  {
  }

  lemma InsertKeeps(st: Store, job: Job, sorted: seq<string>, n: nat, preloadFails: bool, s: Pass)
    requires n < |sorted| && Progress(st, job, sorted, n, preloadFails, s) && Reached(st, job, sorted[n])
    requires Expected(st, job, sorted[n], SpentAt(st, job, sorted, n), preloadFails) == Insert
    requires ChosenUpTo(st, job, sorted, n + 1) == ChosenUpTo(st, job, sorted, n) + [sorted[n]]
    ensures Progress(st, job, sorted, n + 1, preloadFails,
                     s.After(st.wallets[sorted[n]], job.keys[sorted[n]], job.now, Insert))
  {
    var chosen := ChosenUpTo(st, job, sorted, n);
    VisitCounts(st, job, sorted, n, |chosen|, preloadFails, s, Insert);
    InsertStaysInStep(st, job, IdsOf(st.wallets, sorted), chosen, sorted[n], preloadFails, s);
    CacheStaysVisited(st, job, sorted, n, preloadFails, s.cache, true);
  }

  lemma CacheStaysVisited(st: Store, job: Job, sorted: seq<string>, n: nat, preloadFails: bool, cache: set<string>, added: bool)
    requires n < |sorted| && Reached(st, job, sorted[n])
    requires preloadFails ==> FromVisited(st, job, sorted[..n], cache)
    ensures sorted[..n + 1] == sorted[..n] + [sorted[n]]
    ensures preloadFails ==>
              FromVisited(st, job, sorted[..n + 1],
                          if added then cache + {Combo(st.wallets[sorted[n]], job.keys[sorted[n]])} else cache)
  {
    assert sorted[..n + 1] == sorted[..n] + [sorted[n]];
    if preloadFails {
      FromVisitedGrows(st, job, sorted[..n], cache, sorted[n], added);
    }
  }

  lemma OtherStaysInStep(st: Store, job: Job, ids: set<string>, chosen: seq<string>, a: string, preloadFails: bool,
                         s: Pass, outcome: StepResult)
    requires InStep(st, job, ids, chosen, preloadFails, s) && Reached(st, job, a) && outcome != Insert
    requires outcome == Collide ==> Combo(st.wallets[a], job.keys[a]) in Cache(s.rows, ids)
    ensures InStep(st, job, ids, chosen, preloadFails, s.After(st.wallets[a], job.keys[a], job.now, outcome))
  {
  }

  lemma OtherKeeps(st: Store, job: Job, sorted: seq<string>, n: nat, preloadFails: bool, s: Pass, outcome: StepResult)
    requires n < |sorted| && Progress(st, job, sorted, n, preloadFails, s) && Reached(st, job, sorted[n])
    requires outcome != Insert && outcome == Expected(st, job, sorted[n], SpentAt(st, job, sorted, n), preloadFails)
    requires ChosenUpTo(st, job, sorted, n + 1) == ChosenUpTo(st, job, sorted, n)
    requires outcome == Collide ==> Combo(st.wallets[sorted[n]], job.keys[sorted[n]]) in Cache(s.rows, IdsOf(st.wallets, sorted))
    ensures Progress(st, job, sorted, n + 1, preloadFails,
                     s.After(st.wallets[sorted[n]], job.keys[sorted[n]], job.now, outcome))
  {
    var chosen := ChosenUpTo(st, job, sorted, n);
    VisitCounts(st, job, sorted, n, |chosen|, preloadFails, s, outcome);
    OtherStaysInStep(st, job, IdsOf(st.wallets, sorted), chosen, sorted[n], preloadFails, s, outcome);
    CacheStaysVisited(st, job, sorted, n, preloadFails, s.cache, outcome == Collide);
  }

  lemma VisitKeeps(st: Store, job: Job, sorted: seq<string>, n: nat, preloadFails: bool, s: Pass)
    requires WalletsValid(st.wallets) && Ascending(sorted)
    requires n < |sorted| && Progress(st, job, sorted, n, preloadFails, s)
    ensures Progress(st, job, sorted, n + 1, preloadFails, Visit(st.wallets, job, s, sorted[n]))
  {
    if Reached(st, job, sorted[n]) {
      VisitDecides(st, job, sorted, n, preloadFails, s);
      var outcome := Decide(job, s, sorted[n], st.wallets[sorted[n]], job.keys[sorted[n]]);
      if outcome == Insert {
        InsertKeeps(st, job, sorted, n, preloadFails, s);
      } else {
        OtherKeeps(st, job, sorted, n, preloadFails, s, outcome);
      }
    } else {
      SkipKeeps(st, job, sorted, n, preloadFails, s);
    }
  }

  lemma StartKeeps(st: Store, job: Job, sorted: seq<string>, preloadFails: bool)
    ensures Progress(st, job, sorted, 0, preloadFails, StartOf(st, job, sorted, preloadFails))
  {
    assert RowsFor(st, job, []) == [] && st.decisions + [] == st.decisions;
  }

  lemma {:induction false} FoldKeeps(st: Store, job: Job, sorted: seq<string>, n: nat, preloadFails: bool, start: Pass)
    requires WalletsValid(st.wallets) && Ascending(sorted) && n <= |sorted|
    requires start == StartOf(st, job, sorted, preloadFails)
    ensures Progress(st, job, sorted, n, preloadFails, Fold(st.wallets, job, sorted, n, start))
  {
    if n == 0 {
      StartKeeps(st, job, sorted, preloadFails);
    } else {
      FoldKeeps(st, job, sorted, n - 1, preloadFails, start);
      LastVisitKeeps(st, job, sorted, n, preloadFails, start, Fold(st.wallets, job, sorted, n - 1, start));
    }
  }

  lemma LastVisitKeeps(st: Store, job: Job, sorted: seq<string>, n: nat, preloadFails: bool, start: Pass, before: Pass)
    requires WalletsValid(st.wallets) && Ascending(sorted) && 0 < n <= |sorted|
    requires before == Fold(st.wallets, job, sorted, n - 1, start) && Progress(st, job, sorted, n - 1, preloadFails, before)
    ensures Progress(st, job, sorted, n, preloadFails, Fold(st.wallets, job, sorted, n, start))
  {
    VisitKeeps(st, job, sorted, n - 1, preloadFails, before);
  }

  /** The variables before the loop; a failed pre-load leaves the cache empty. */
  function StartOf(st: Store, job: Job, sorted: seq<string>, preloadFails: bool): Pass {
    Pass(if preloadFails then {} else Cache(st.decisions, IdsOf(st.wallets, sorted)),
         job.budget, st.decisions, 0, 0, 0, 0, [])
  }

  /** How many addresses of a whole call have this outcome. */
  function Outcomes(st: Store, job: Job, addresses: seq<string>, preloadFails: bool, o: StepResult): nat {
    CountOf(st, job, SortDistinct(addresses), |SortDistinct(addresses)|, preloadFails, o)
  }

  /** What a call promises about its counters. */
  ghost predicate Accounted(st: Store, job: Job, addresses: seq<string>, preloadFails: bool, s: Pass) {
    var chosen, count := Chosen(st, job, addresses), (o: StepResult) => Outcomes(st, job, addresses, preloadFails, o);
    && s.persisted == count(Insert) == |chosen|
    && NamesRows(s.ids, AfterPersist(st, job, addresses).decisions[|st.decisions|..])
    && s.reused == count(Reuse) + count(Collide) && s.deferred == count(Defer)
    && s.applied == count(Insert) + count(Collide)
  }

  lemma CompletedPass(st: Store, job: Job, addresses: seq<string>, preloadFails: bool)
    requires WalletsValid(st.wallets)
    ensures var sorted := SortDistinct(addresses);
            var s := Fold(st.wallets, job, sorted, |sorted|, StartOf(st, job, sorted, preloadFails));
            && s.rows == AfterPersist(st, job, addresses).decisions
            && Accounted(st, job, addresses, preloadFails, s)
  {
    var sorted := SortDistinct(addresses);
    FoldKeeps(st, job, sorted, |sorted|, preloadFails, StartOf(st, job, sorted, preloadFails));
    assert sorted[..|sorted|] == sorted;
    assert Pending(st, job, sorted) == Pending(st, job, addresses);
    assert AfterPersist(st, job, addresses).decisions[|st.decisions|..] == RowsFor(st, job, Chosen(st, job, addresses));
  }

  /** The addresses with metrics and a wallets row. */
  function ReachedOf(st: Store, job: Job, addresses: seq<string>): set<string> {
    set a | a in addresses && Reached(st, job, a)
  }

  lemma {:induction false} CountsPartition(st: Store, job: Job, sorted: seq<string>, n: nat, preloadFails: bool)
    requires n <= |sorted|
    ensures CountOf(st, job, sorted, n, preloadFails, Reuse) + CountOf(st, job, sorted, n, preloadFails, Collide)
            + CountOf(st, job, sorted, n, preloadFails, Defer) + CountOf(st, job, sorted, n, preloadFails, Fail)
            + CountOf(st, job, sorted, n, preloadFails, Insert)
            == |Within(sorted[..n], ReachedOf(st, job, sorted))|
  {
    if n > 0 {
      CountsPartition(st, job, sorted, n - 1, preloadFails);
      WithinSnoc(sorted, n - 1, ReachedOf(st, job, sorted));
      assert sorted[n - 1] in sorted;
    }
  }

  lemma {:induction false} NoneCollideWhenLoaded(st: Store, job: Job, sorted: seq<string>, n: nat)
    requires n <= |sorted|
    ensures CountOf(st, job, sorted, n, false, Collide) == 0
    ensures job.failing == {} ==> CountOf(st, job, sorted, n, false, Fail) == 0
  {
    if n > 0 {
      NoneCollideWhenLoaded(st, job, sorted, n - 1);
    }
  }

  /** With a working pre-load, what is reused is what was up to date. */
  lemma {:induction false} CountsOfLoaded(st: Store, job: Job, sorted: seq<string>, n: nat)
    requires n <= |sorted|
    ensures CountOf(st, job, sorted, n, false, Reuse) == |Within(sorted[..n], Reusable(st, job, sorted))|
  {
    if n > 0 {
      CountsOfLoaded(st, job, sorted, n - 1);
      ReusableSnoc(st, job, sorted, n - 1);
    }
  }

  lemma ReusableSnoc(st: Store, job: Job, sorted: seq<string>, n: nat)
    requires n < |sorted|
    ensures |Within(sorted[..n + 1], Reusable(st, job, sorted))|
            == |Within(sorted[..n], Reusable(st, job, sorted))|
               + (if Reached(st, job, sorted[n]) && UpToDate(st, job, sorted[n]) then 1 else 0)
  {
    WithinSnoc(sorted, n, Reusable(st, job, sorted));
    assert sorted[n] in sorted;
  }

  lemma OutcomesPartition(st: Store, job: Job, addresses: seq<string>, preloadFails: bool)
    ensures Outcomes(st, job, addresses, preloadFails, Reuse) + Outcomes(st, job, addresses, preloadFails, Collide)
            + Outcomes(st, job, addresses, preloadFails, Defer) + Outcomes(st, job, addresses, preloadFails, Fail)
            + Outcomes(st, job, addresses, preloadFails, Insert)
            == |ReachedOf(st, job, addresses)|
  {
    var sorted := SortDistinct(addresses);
    assert sorted[..|sorted|] == sorted;
    assert ReachedOf(st, job, sorted) == ReachedOf(st, job, addresses);
    CountsPartition(st, job, sorted, |sorted|, preloadFails);
    WithinSize(sorted, ReachedOf(st, job, addresses));
  }

  lemma OutcomesOfLoaded(st: Store, job: Job, addresses: seq<string>)
    ensures Outcomes(st, job, addresses, false, Collide) == 0
    ensures Outcomes(st, job, addresses, false, Reuse) == |Reusable(st, job, addresses)|
    ensures job.failing == {} ==> Outcomes(st, job, addresses, false, Fail) == 0
  {
    var sorted := SortDistinct(addresses);
    assert sorted[..|sorted|] == sorted;
    assert Reusable(st, job, sorted) == Reusable(st, job, addresses);
    CountsOfLoaded(st, job, sorted, |sorted|);
    NoneCollideWhenLoaded(st, job, sorted, |sorted|);
    WithinSize(sorted, Reusable(st, job, addresses));
  }

  lemma ReachedSplit(st: Store, job: Job, addresses: seq<string>)
    ensures |ReachedOf(st, job, addresses)| == |Reusable(st, job, addresses)| + |Missing(st, job, addresses)|
  {
    var reusable, missing := Reusable(st, job, addresses), Missing(st, job, addresses);
    assert ReachedOf(st, job, addresses) == reusable + missing && reusable !! missing;
  }

  /** Every address with metrics and a wallets row is inserted, reused, deferred or failed, once,
      whether or not the pre-load worked. When it worked, the reused ones are those with a row
      for their current metrics; if no insert raises either, the missing ones without a new row
      are deferred. */
  lemma EveryAddressCounted(st: Store, job: Job, addresses: seq<string>, preloadFails: bool, s: Pass)
    requires Accounted(st, job, addresses, preloadFails, s)
    ensures s.persisted + s.reused + s.deferred + Outcomes(st, job, addresses, preloadFails, Fail)
            == |ReachedOf(st, job, addresses)|
    ensures !preloadFails ==> s.applied == s.persisted && s.reused == |Reusable(st, job, addresses)|
    ensures !preloadFails && job.failing == {} ==> s.deferred == |Missing(st, job, addresses)| - s.persisted
  {
    OutcomesPartition(st, job, addresses, preloadFails);
    OutcomesOfLoaded(st, job, addresses);
    ReachedSplit(st, job, addresses);
  }

  lemma {:induction false} NeverSpent(st: Store, job: Job, sorted: seq<string>, n: nat, preloadFails: bool)
    requires n <= |sorted| && (job.budget.Some? ==> n <= job.budget.value)
    ensures CountOf(st, job, sorted, n, preloadFails, Defer) == 0
  {
    if n > 0 {
      NeverSpent(st, job, sorted, n - 1, preloadFails);
      assert |ChosenUpTo(st, job, sorted, n - 1)| <= n - 1;
    }
  }

  /** Only inserts spend budget: a budget as large as the list defers nothing, whichever inserts
      raise and whether or not the pre-load worked. */
  lemma LargeBudgetDefersNone(st: Store, job: Job, addresses: seq<string>, preloadFails: bool, s: Pass)
    requires Accounted(st, job, addresses, preloadFails, s)
    requires job.budget.Some? && addresses != [] ==> |SortDistinct(addresses)| <= job.budget.value
    ensures s.deferred == 0
  {
    if addresses != [] {
      NeverSpent(st, job, SortDistinct(addresses), |SortDistinct(addresses)|, preloadFails);
    }
  }

  /** The counters that the loop updates, as they stand. */
  function Tally(counters: ScanPipelineCounters): (int, int, int)
    reads counters
  {
    (counters.walletScoreDecisionsPersisted, counters.walletScoreDecisionsReused, counters.walletScoresDeferred)
  }

  function PassOf(cache: set<string>, budget: Option<int>, rows: seq<Decision>, now: (int, int, int),
                  before: (int, int, int), applied: int, ids: seq<string>): Pass
  {
    Pass(cache, budget, rows, now.0 - before.0, now.1 - before.1, now.2 - before.2, applied, ids)
  }

  /** One iteration of the loop. */
  method VisitAddress(
    db: Database, job: Job, counters: ScanPipelineCounters, a: string, cache: set<string>, budget: Option<int>,
    applied: int, ids: seq<string>, ghost before: (int, int, int))
    returns (cache1: set<string>, budget1: Option<int>, applied1: int, ids1: seq<string>)
    requires Valid(db.Contents())
    modifies db`decisions, counters`walletScoreDecisionsPersisted, counters`walletScoreDecisionsReused,
      counters`walletScoresDeferred
    ensures Valid(db.Contents())
    ensures PassOf(cache1, budget1, db.decisions, Tally(counters), before, applied1, ids1)
            == Visit(db.wallets, job, PassOf(cache, budget, old(db.decisions), old(Tally(counters)), before, applied, ids), a)
  {
    cache1, budget1, applied1, ids1 := cache, budget, applied, ids;
    if a !in job.keys || a !in db.wallets {
      return;
    }
    var w, key := db.wallets[a], job.keys[a];
    var outcome := ScoreOne(db, cache, w, key, job.now, a in job.failing, Exhausted(budget));
    match outcome {
      case Reuse => counters.walletScoreDecisionsReused := counters.walletScoreDecisionsReused + 1;
      case Defer => counters.walletScoresDeferred := counters.walletScoresDeferred + 1;
      case Fail =>
      case Insert =>
        counters.walletScoreDecisionsPersisted := counters.walletScoreDecisionsPersisted + 1;
        cache1, applied1, ids1 := cache + {Combo(w, key)}, applied + 1, ids + [w];
        if budget.Some? {
          budget1 := Some(budget.value - 1);
        }
      case Collide =>
        counters.walletScoreDecisionsReused := counters.walletScoreDecisionsReused + 1;
        cache1, applied1 := cache + {Combo(w, key)}, applied + 1;
    }
  }

  /** No wallet gets two rows in one call. */
  lemma NewRowsNameOnce(st: Store, job: Job, addresses: seq<string>, ids: seq<string>)
    requires WalletsValid(st.wallets)
    requires NamesRows(ids, AfterPersist(st, job, addresses).decisions[|st.decisions|..])
    ensures NoDuplicates(ids)
  {
    var chosen := Chosen(st, job, addresses);
    ChosenReached(st, job, addresses);
    AscendingNoDuplicates(chosen);
    forall i, j | 0 <= i < j < |ids| ensures ids[i] != ids[j] {
      assert chosen[i] in chosen && chosen[j] in chosen;
      assert ids[i] == st.wallets[chosen[i]] && ids[j] == st.wallets[chosen[j]];
    }
  }

  /** Step 5b. Whether or not the cache could be pre-loaded, the rows written are those of the
      first pending addresses the budget pays for, and no pair is stored twice. The list of fresh
      inserts holds the wallets of the rows that this call appended, in order and each once. */
  method PersistWalletV1Decisions(
    db: Database, job: Job, addresses: seq<string>, counters: ScanPipelineCounters, preloadFails: bool)
    returns (applied: int)
    requires Valid(db.Contents())
    modifies db`decisions, counters
    ensures Valid(db.Contents())
    ensures db.Contents() == AfterPersist(old(db.Contents()), job, addresses)
    ensures counters.walletScoreDecisionsPersisted
            == old(counters.walletScoreDecisionsPersisted) + |db.decisions| - |old(db.decisions)|
    ensures |old(db.decisions)| + |counters.freshInsertWalletIds| == |db.decisions|
    ensures forall i :: 0 <= i < |counters.freshInsertWalletIds| ==>
              counters.freshInsertWalletIds[i] == db.decisions[|old(db.decisions)| + i].wallet
    ensures NoDuplicates(counters.freshInsertWalletIds)
    ensures Accounted(old(db.Contents()), job, addresses, preloadFails, Pass({}, None, [],
              counters.walletScoreDecisionsPersisted - old(counters.walletScoreDecisionsPersisted),
              counters.walletScoreDecisionsReused - old(counters.walletScoreDecisionsReused),
              counters.walletScoresDeferred - old(counters.walletScoresDeferred),
              applied, counters.freshInsertWalletIds))
  {
    ghost var st, before := db.Contents(), Tally(counters);
    var sorted := SortDistinct(addresses);
    var existingKeys := if preloadFails then {} else Cache(db.decisions, IdsOf(db.wallets, sorted));
    var budgetRemaining := job.budget;
    var freshInsertWalletIds := [];
    applied := 0;
    ghost var start := StartOf(st, job, sorted, preloadFails);
    for n := 0 to |sorted|
      invariant db.wallets == st.wallets && db.trades == st.trades && Valid(db.Contents())
      invariant Fold(st.wallets, job, sorted, n, start)
                == PassOf(existingKeys, budgetRemaining, db.decisions, Tally(counters), before, applied, freshInsertWalletIds)
    {
      existingKeys, budgetRemaining, applied, freshInsertWalletIds :=
        VisitAddress(db, job, counters, sorted[n], existingKeys, budgetRemaining, applied, freshInsertWalletIds, before);
    }
    CompletedPass(st, job, addresses, preloadFails);
    NewRowsNameOnce(st, job, addresses, freshInsertWalletIds);
    counters.freshInsertWalletIds := freshInsertWalletIds;
  }

  lemma NotYetChosen(sorted: seq<string>, n: nat, chosen: seq<string>)
    requires Ascending(sorted) && n < |sorted|
    requires forall x :: x in chosen ==> x in sorted[..n]
    ensures sorted[n] !in chosen
  {
    AscendingNoDuplicates(sorted);
  }

  lemma OutcomeDecided(
    st: Store, job: Job, ids: set<string>, cache: set<string>, rows: seq<Decision>, chosen: seq<string>,
    a: string, outcome: StepResult, exhausted: bool, preloadFails: bool)
    requires WalletsValid(st.wallets) && Reached(st, job, a) && a !in chosen
    requires forall x :: x in chosen ==> Reached(st, job, x)
    requires rows == st.decisions + RowsFor(st, job, chosen)
    requires BarFree(ids) && st.wallets[a] in ids
    requires cache <= Cache(rows, ids) && (!preloadFails ==> cache == Cache(rows, ids))
    requires preloadFails ==> Combo(st.wallets[a], job.keys[a]) !in cache
    requires outcome == if Combo(st.wallets[a], job.keys[a]) in cache then Reuse
                        else if exhausted then Defer
                        else if a in job.failing then Fail
                        else if Tabled(rows, st.wallets[a], job.keys[a]) then Collide else Insert
    ensures outcome == Expected(st, job, a, exhausted, preloadFails)
    ensures outcome == Collide ==> Combo(st.wallets[a], job.keys[a]) in Cache(rows, ids)
  {
    RowsOfOthers(st, job, chosen, a, job.keys[a]);
    CacheDecidesPairs(rows, ids, st.wallets[a], job.keys[a]);
  }
}
