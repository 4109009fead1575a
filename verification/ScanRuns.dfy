/** Runs of the bounded scorer: classify and slice, compute metrics for the slice, persist
    with budget = cap. Between runs the environment appends trades and wallets. */
module ScanRuns {
  import opened Basics
  import opened Canonical
  import opened ScanStore
  import opened WalletSlice
  import opened WalletScores

  /** The idempotency key of a wallet as a function of its address and its trades. */
  type KeyFunction = (string, seq<Trade>) -> string

  function KeyOf(env: Env): KeyFunction {
    (a, own) => if own == [] then "" else IdempotencyKey(env, a, MetricsOf(env, own))
  }

  /** Equal keys of one wallet come from equally many trades with the same newest stamp. */
  ghost predicate Revealing(key: KeyFunction) {
    forall a, x, y :: x != [] && y != [] && key(a, x) == key(a, y) ==> |x| == |y| && Latest(x) == Latest(y)
  }

  lemma RealKeyIsRevealing(env: Env)
    requires Faithful(env)
    ensures Revealing(KeyOf(env))
  {
    forall a, x, y | x != [] && y != [] && KeyOf(env)(a, x) == KeyOf(env)(a, y)
      ensures |x| == |y| && Latest(x) == Latest(y)
    {
      KeyDecidesHistory(env, a, x, y);
    }
  }

  // ---- one run -------------------------------------------------------------------------------

  /** The keys of the sliced wallets that have trades. */
  function KeysAt(st: Store, key: KeyFunction, slice: seq<string>): map<string, string> {
    map a | a in slice && OwnTrades(st.trades, a) != [] :: key(a, OwnTrades(st.trades, a))
  }

  function JobAt(st: Store, key: KeyFunction, slice: seq<string>, cap: nat, now: int, failing: set<string>): Job {
    Job(KeysAt(st, key, slice), now, Some(cap), failing)
  }

  /** The store after Step 5b has worked through a slice. */
  function AfterSlice(st: Store, key: KeyFunction, slice: seq<string>, cap: nat, now: int, failing: set<string>): Store {
    AfterPersist(st, JobAt(st, key, slice, cap, now, failing), slice)
  }

  /** The store after a run with this cap at this time, whose classification may have lost
      queries and whose inserts may fail. The clock is read before trades are fetched, so it
      may lie before trades that the run sees. */
  function AfterRun(st: Store, key: KeyFunction, corpus: seq<string>, cap: nat, now: int, failing: set<string>,
                    lost: Lost): Store
  {
    AfterSlice(st, key, SliceUnder(st, corpus, cap, lost), cap, now, failing)
  }

  function SliceUnder(st: Store, corpus: seq<string>, cap: nat, lost: Lost): seq<string> {
    SliceFrom(corpus, Needs(st, lost, corpus), cap)
  }

  /** What every slice is, whatever was lost. */
  ghost predicate Fits(slice: seq<string>, cap: nat) {
    Ascending(slice) && |slice| <= cap
  }

  lemma SliceUnderFits(st: Store, corpus: seq<string>, cap: nat, lost: Lost)
    ensures Fits(SliceUnder(st, corpus, cap, lost), cap)
    ensures forall a :: a in SliceUnder(st, corpus, cap, lost) ==> a in corpus
  {
    SliceShape(corpus, Needs(st, lost, corpus), cap);
  }

  /** A budget as large as an ascending list pays for everything pending in it. */
  lemma BudgetCoversAll(st: Store, job: Job, slice: seq<string>)
    requires Ascending(slice) && job.budget.Some? && |slice| <= job.budget.value
    ensures Elements(Chosen(st, job, slice)) == Pending(st, job, slice)
    ensures job.failing == {} ==> |Missing(st, job, slice)| == |Chosen(st, job, slice)|
  {
    var pending := Pending(st, job, slice);
    SortDistinctOfAscending(slice);
    assert Chosen(st, job, slice) == Within(slice, pending);
    WithinSize(slice, pending);
  }

  /** Since the slice is no longer than the budget, the budget never runs out: every pending
      address of the slice gets its row and nothing is deferred. */
  lemma SliceFitsBudget(st: Store, key: KeyFunction, slice: seq<string>, cap: nat, now: int, failing: set<string>)
    requires Fits(slice, cap)
    ensures var job := JobAt(st, key, slice, cap, now, failing);
            Elements(Chosen(st, job, slice)) == Pending(st, job, slice)
            && (failing == {} ==> |Missing(st, job, slice)| == |Chosen(st, job, slice)|)
  {
    BudgetCoversAll(st, JobAt(st, key, slice, cap, now, failing), slice);
  }

  // ---- which wallets a run serves ------------------------------------------------------------

  /** The wallet's current key is in the table. */
  predicate Keyed(st: Store, key: KeyFunction, a: string)
    requires a in st.wallets
  {
    Tabled(st.decisions, st.wallets[a], key(a, OwnTrades(st.trades, a)))
  }

  /** The run inserts a row for the wallet. */
  predicate Serves(st: Store, key: KeyFunction, slice: seq<string>, failing: set<string>, a: string) {
    a in slice && a in st.wallets && OwnTrades(st.trades, a) != [] && a !in failing && !Keyed(st, key, a)
  }

  /** A trade recorded under exactly this address is newer than the wallet's rows and lies after
      the clock. */
  predicate Ahead(st: Store, a: string, now: int)
    requires a in st.wallets
  {
    exists j :: 0 <= j < |st.trades| && st.trades[j].trader == Some(a)
                && NewerThanRows(st.trades[j], st.decisions, st.wallets[a]) && st.trades[j].at > now
  }

  /** Row i of the later table was written for address a at this time. */
  ghost predicate NewRow(st: Store, after: Store, a: string, now: int, k: string, i: nat)
    requires a in st.wallets
  {
    |st.decisions| <= i < |after.decisions| && after.decisions[i] == Decision(st.wallets[a], V1, k, now)
  }

  lemma PersistAppends(st: Store, job: Job, addresses: seq<string>, i: nat)
    requires |st.decisions| <= i < |AfterPersist(st, job, addresses).decisions|
    ensures exists a :: a in Chosen(st, job, addresses) && Reached(st, job, a)
                        && AfterPersist(st, job, addresses).decisions[i] == RowFor(st, job, a)
  {
    var chosen := Chosen(st, job, addresses);
    ChosenReached(st, job, addresses);
    var a := chosen[i - |st.decisions|];
    assert a in chosen;
    assert RowsFor(st, job, chosen)[i - |st.decisions|] == RowFor(st, job, a);
  }

  lemma ChosenIsServed(st: Store, key: KeyFunction, slice: seq<string>, cap: nat, now: int, failing: set<string>, a: string)
    requires Fits(slice, cap)
    ensures a in Chosen(st, JobAt(st, key, slice, cap, now, failing), slice) <==> Serves(st, key, slice, failing, a)
  {
    var job := JobAt(st, key, slice, cap, now, failing);
    SliceFitsBudget(st, key, slice, cap, now, failing);
    assert a in Chosen(st, job, slice) <==> a in Elements(Chosen(st, job, slice));
  }

  /** Row i was written at this time for the wallet of a served address, under its current key. */
  ghost predicate ServedRow(st: Store, key: KeyFunction, slice: seq<string>, now: int, failing: set<string>, r: Decision) {
    exists a :: Serves(st, key, slice, failing, a)
                && r == Decision(st.wallets[a], V1, key(a, OwnTrades(st.trades, a)), now)
  }

  /** A run only appends, and each appended row is one of these. */
  lemma SliceAppends(st: Store, key: KeyFunction, slice: seq<string>, cap: nat, now: int, failing: set<string>)
    requires Fits(slice, cap)
    ensures var after := AfterSlice(st, key, slice, cap, now, failing);
            && after.wallets == st.wallets && after.trades == st.trades && st.decisions <= after.decisions
            && forall i :: |st.decisions| <= i < |after.decisions| ==>
                 ServedRow(st, key, slice, now, failing, after.decisions[i])
  {
    var job := JobAt(st, key, slice, cap, now, failing);
    var after := AfterPersist(st, job, slice);
    forall i | |st.decisions| <= i < |after.decisions| ensures ServedRow(st, key, slice, now, failing, after.decisions[i]) {
      PersistAppends(st, job, slice, i);
      var a :| a in Chosen(st, job, slice) && Reached(st, job, a) && after.decisions[i] == RowFor(st, job, a);
      ChosenIsServed(st, key, slice, cap, now, failing, a);
    }
  }

  lemma ChosenIsWritten(st: Store, job: Job, slice: seq<string>, a: string)
    requires a in Chosen(st, job, slice) && Reached(st, job, a)
    ensures exists i: nat :: NewRow(st, AfterPersist(st, job, slice), a, job.now, job.keys[a], i)
  {
    var chosen, after := Chosen(st, job, slice), AfterPersist(st, job, slice);
    ChosenReached(st, job, slice);
    var k :| 0 <= k < |chosen| && chosen[k] == a;
    assert after.decisions[|st.decisions| + k] == RowFor(st, job, a);
    assert NewRow(st, after, a, job.now, job.keys[a], |st.decisions| + k);
  }

  /** It appends one for every served wallet. */
  lemma ServedGetsRow(st: Store, key: KeyFunction, slice: seq<string>, cap: nat, now: int, failing: set<string>, a: string)
    requires Fits(slice, cap) && Serves(st, key, slice, failing, a)
    ensures exists i: nat :: NewRow(st, AfterSlice(st, key, slice, cap, now, failing), a, now,
                                    key(a, OwnTrades(st.trades, a)), i)
  {
    var job := JobAt(st, key, slice, cap, now, failing);
    ChosenIsServed(st, key, slice, cap, now, failing, a);
    ChosenReached(st, job, slice);
    ChosenIsWritten(st, job, slice, a);
    var i: nat :| NewRow(st, AfterPersist(st, job, slice), a, job.now, job.keys[a], i);
    assert NewRow(st, AfterSlice(st, key, slice, cap, now, failing), a, now, key(a, OwnTrades(st.trades, a)), i);
  }

  // ---- what a run does to one wallet -----------------------------------------------------------

  /** The rows that later has beyond earlier's are all stamped now, and some of them are this
      wallet's exactly when served. */
  ghost predicate Extends(st: Store, after: Store, w: string, now: int, served: bool) {
    && after.wallets == st.wallets && after.trades == st.trades && st.decisions <= after.decisions
    && (forall i :: |st.decisions| <= i < |after.decisions| ==>
          after.decisions[i].stamp == now && (!served ==> !IsV1(after.decisions[i], w)))
    && (served ==> exists i :: |st.decisions| <= i < |after.decisions| && IsV1(after.decisions[i], w))
  }

  lemma NewerAfter(st: Store, after: Store, w: string, now: int, served: bool, t: Trade)
    requires Extends(st, after, w, now, served)
    ensures NewerThanRows(t, after.decisions, w) <==> NewerThanRows(t, st.decisions, w) && (served ==> now < t.at)
  {
    assert forall i :: 0 <= i < |st.decisions| ==> after.decisions[i] == st.decisions[i];
    if NewerThanRows(t, after.decisions, w) {
      forall i | 0 <= i < |st.decisions| && IsV1(st.decisions[i], w) ensures st.decisions[i].stamp < t.at {
        assert IsV1(after.decisions[i], w);
      }
    }
  }

  /** An unserved wallet keeps its state; a served one is material changed when a trade lies
      ahead of the clock and already scored otherwise. */
  lemma StateAfter(st: Store, after: Store, a: string, now: int, served: bool)
    requires a in st.wallets && Extends(st, after, st.wallets[a], now, served)
    ensures StateOf(after, a)
            == if !served then StateOf(st, a) else if Ahead(st, a, now) then MaterialChanged else AlreadyScored
  {
    var w := st.wallets[a];
    assert HasPrior(after.decisions, w) <==> served || HasPrior(st.decisions, w) by {
      if HasPrior(st.decisions, w) {
        var i :| 0 <= i < |st.decisions| && IsV1(st.decisions[i], w);
        assert IsV1(after.decisions[i], w);
      }
      if HasPrior(after.decisions, w) && !served {
        var i :| 0 <= i < |after.decisions| && IsV1(after.decisions[i], w);
        assert IsV1(st.decisions[i], w);
      }
    }
    forall j | 0 <= j < |st.trades|
      ensures NewerThanRows(st.trades[j], after.decisions, w)
              <==> NewerThanRows(st.trades[j], st.decisions, w) && (served ==> now < st.trades[j].at)
    {
      NewerAfter(st, after, w, now, served, st.trades[j]);
    }
  }

  lemma SliceExtends(st: Store, key: KeyFunction, slice: seq<string>, cap: nat, now: int, failing: set<string>, a: string)
    requires WalletsValid(st.wallets) && Fits(slice, cap) && a in st.wallets
    ensures Extends(st, AfterSlice(st, key, slice, cap, now, failing), st.wallets[a], now,
                    Serves(st, key, slice, failing, a))
  {
    var after, w := AfterSlice(st, key, slice, cap, now, failing), st.wallets[a];
    SliceAppends(st, key, slice, cap, now, failing);
    forall i | |st.decisions| <= i < |after.decisions|
      ensures after.decisions[i].stamp == now
      ensures !Serves(st, key, slice, failing, a) ==> !IsV1(after.decisions[i], w)
    {
      assert ServedRow(st, key, slice, now, failing, after.decisions[i]);
    }
    if Serves(st, key, slice, failing, a) {
      ServedGetsRow(st, key, slice, cap, now, failing, a);
      var i: nat :| NewRow(st, after, a, now, key(a, OwnTrades(st.trades, a)), i);
      assert IsV1(after.decisions[i], w);
    }
  }

  /** The state of every wallet after a run, with any clock and any failures. */
  lemma RunDecidesState(st: Store, key: KeyFunction, slice: seq<string>, cap: nat, now: int, failing: set<string>, a: string)
    requires WalletsValid(st.wallets) && Fits(slice, cap)
    ensures StateOf(AfterSlice(st, key, slice, cap, now, failing), a)
            == if !Serves(st, key, slice, failing, a) then StateOf(st, a)
               else if Ahead(st, a, now) then MaterialChanged else AlreadyScored
  {
    var after := AfterSlice(st, key, slice, cap, now, failing);
    if a in st.wallets {
      SliceExtends(st, key, slice, cap, now, failing, a);
      StateAfter(st, after, a, now, Serves(st, key, slice, failing, a));
    } else {
      SliceAppends(st, key, slice, cap, now, failing);
    }
  }

  /** Served wallets have their key tabled afterwards; the others' keys are tabled as before. */
  lemma RunDecidesKeyed(st: Store, key: KeyFunction, slice: seq<string>, cap: nat, now: int, failing: set<string>, a: string)
    requires WalletsValid(st.wallets) && Fits(slice, cap) && a in st.wallets
    ensures var after := AfterSlice(st, key, slice, cap, now, failing);
            a in after.wallets && (Keyed(after, key, a) <==> Keyed(st, key, a) || Serves(st, key, slice, failing, a))
  {
    var after, w := AfterSlice(st, key, slice, cap, now, failing), st.wallets[a];
    SliceExtends(st, key, slice, cap, now, failing, a);
    if Serves(st, key, slice, failing, a) {
      ServedGetsRow(st, key, slice, cap, now, failing, a);
      var i: nat :| NewRow(st, after, a, now, key(a, OwnTrades(st.trades, a)), i);
      assert IsV1(after.decisions[i], w);
    } else if Keyed(after, key, a) {
      var i :| 0 <= i < |after.decisions| && IsV1(after.decisions[i], w)
               && after.decisions[i].key == key(a, OwnTrades(st.trades, a));
      assert IsV1(st.decisions[i], w);
    }
    if Keyed(st, key, a) {
      var i :| 0 <= i < |st.decisions| && IsV1(st.decisions[i], w) && st.decisions[i].key == key(a, OwnTrades(st.trades, a));
      assert IsV1(after.decisions[i], w);
    }
  }

  // ---- what a run does to the backlog ----------------------------------------------------------

  /** The sliced backlog wallets that a run moves to "already scored". */
  function Cleared(st: Store, key: KeyFunction, corpus: seq<string>, slice: seq<string>, now: int,
                   failing: set<string>): set<string>
  {
    set a | a in Backlog(st, corpus) && Serves(st, key, slice, failing, a) && !Ahead(st, a, now)
  }

  /** Exactly these leave the backlog, and nothing enters it: for any clock, any failing inserts
      and any slice. A wallet served while a trade lies ahead of the clock stays in it. */
  lemma RunClears(st: Store, key: KeyFunction, corpus: seq<string>, slice: seq<string>, cap: nat, now: int, failing: set<string>)
    requires WalletsValid(st.wallets) && Fits(slice, cap)
    ensures var after := AfterSlice(st, key, slice, cap, now, failing);
            && Backlog(after, corpus) == Backlog(st, corpus) - Cleared(st, key, corpus, slice, now, failing)
            && |Backlog(after, corpus)| == |Backlog(st, corpus)| - |Cleared(st, key, corpus, slice, now, failing)|
  {
    var after, cleared := AfterSlice(st, key, slice, cap, now, failing), Cleared(st, key, corpus, slice, now, failing);
    forall a | a in corpus ensures a in Backlog(after, corpus) <==> a in Backlog(st, corpus) && a !in cleared {
      RunDecidesState(st, key, slice, cap, now, failing, a);
      if Serves(st, key, slice, failing, a) && Ahead(st, a, now) {
        AheadNeedsWork(st, a, now);
      }
    }
    assert Backlog(after, corpus) == Backlog(st, corpus) - cleared;
    assert cleared <= Backlog(st, corpus);
  }

  lemma AheadNeedsWork(st: Store, a: string, now: int)
    requires a in st.wallets && Ahead(st, a, now)
    ensures StateOf(st, a) != AlreadyScored
  {
  }

  /** The leading elements that lie in needs, when those outside come last. */
  lemma NeededComeFirst(p: seq<string>, q: seq<string>, needs: set<string>, cap: nat)
    requires forall x :: x in p ==> x in needs
    requires forall x :: x in q ==> x !in needs
    ensures forall a :: a in Take(cap, p) <==> a in needs && a in Take(cap, p + q)
  {
    var front, all := Take(cap, p), Take(cap, p + q);
    forall a | a in front ensures a in needs && a in all {
      var i :| 0 <= i < |front| && front[i] == a;
      assert all[i] == p[i] == a;
    }
    forall j | |p| <= j < |all| ensures all[j] !in needs { assert all[j] == q[j - |p|]; }
    forall a | a in needs && a in all ensures a in front {
      var i :| 0 <= i < |all| && all[i] == a;
      assert front[i] == a;
    }
  }

  /** A slice holds exactly min(cap, count) of the addresses that need work. */
  lemma SliceTakesFromNeeds(corpus: seq<string>, needs: set<string>, cap: nat)
    requires forall x :: x in needs ==> x in corpus
    ensures |needs * Elements(SliceFrom(corpus, needs, cap))| == Min(cap, |needs|)
  {
    var sorted := SortDistinct(corpus);
    var w := Within(sorted, needs);
    SliceShape(corpus, needs, cap);
    WithinSize(sorted, needs);
    AscendingNoDuplicates(sorted);
    WithinNoDuplicates(sorted, needs);
    var taken := Take(cap, w);
    NeededComeFirst(w, Within(sorted, Elements(corpus) - needs), needs, cap);
    SizeOfElements(taken);
    assert needs * Elements(SliceFrom(corpus, needs, cap)) == Elements(taken);
  }

  // ---- wallets that no run can clear ----------------------------------------------------------

  /** Every address of the corpus has a wallets row and at least one trade. */
  ghost predicate Ready(st: Store, corpus: seq<string>) {
    forall a :: a in corpus ==> a in st.wallets && OwnTrades(st.trades, a) != []
  }

  /** A backlog wallet that Step 5b has nothing to write for: it has no row or no trades, or its
      current key is in the table. */
  predicate Blocked(st: Store, key: KeyFunction, a: string) {
    StateOf(st, a) != AlreadyScored && (a in st.wallets && OwnTrades(st.trades, a) != [] ==> Keyed(st, key, a))
  }

  ghost predicate NoneBlocked(st: Store, key: KeyFunction, corpus: seq<string>) {
    forall a :: a in corpus ==> !Blocked(st, key, a)
  }

  /** A run leaves a wallet blocked exactly when it was, or when the run wrote its row while a
      newer trade lay ahead of the clock. */
  lemma BlockedAfterRun(st: Store, key: KeyFunction, slice: seq<string>, cap: nat, now: int, failing: set<string>, a: string)
    requires WalletsValid(st.wallets) && Fits(slice, cap)
    ensures Blocked(AfterSlice(st, key, slice, cap, now, failing), key, a)
            <==> Blocked(st, key, a) || (Serves(st, key, slice, failing, a) && Ahead(st, a, now))
  {
    SliceAppends(st, key, slice, cap, now, failing);
    RunDecidesState(st, key, slice, cap, now, failing, a);
    if a in st.wallets {
      RunDecidesKeyed(st, key, slice, cap, now, failing, a);
    }
  }

  ghost predicate NotBefore(now: int, trades: seq<Trade>) {
    forall t :: t in trades ==> t.at <= now
  }

  lemma NoneAhead(st: Store, a: string, now: int)
    requires NotBefore(now, st.trades)
    ensures a in st.wallets ==> !Ahead(st, a, now)
  {
  }

  /** With a clock past every trade, a failure-free run over a corpus without blocked wallets
      lowers the backlog by exactly min(cap, its size), and blocks none. */
  lemma RunLowersBacklog(st: Store, key: KeyFunction, corpus: seq<string>, cap: nat, now: int)
    requires WalletsValid(st.wallets) && NoneBlocked(st, key, corpus) && NotBefore(now, st.trades)
    ensures var after := AfterRun(st, key, corpus, cap, now, {}, NOTHING_LOST);
            && |Backlog(after, corpus)| == |Backlog(st, corpus)| - Min(cap, |Backlog(st, corpus)|)
            && NoneBlocked(after, key, corpus)
  {
    var slice := SliceUnder(st, corpus, cap, NOTHING_LOST);
    SliceUnderFits(st, corpus, cap, NOTHING_LOST);
    NothingLostSeesBacklog(st, corpus);
    RunClears(st, key, corpus, slice, cap, now, {});
    forall a | a in corpus ensures a in Cleared(st, key, corpus, slice, now, {}) <==> a in Backlog(st, corpus) && a in slice {
      NoneAhead(st, a, now);
    }
    assert Cleared(st, key, corpus, slice, now, {}) == Backlog(st, corpus) * Elements(slice);
    SliceTakesFromNeeds(corpus, Backlog(st, corpus), cap);
    forall a | a in corpus ensures !Blocked(AfterSlice(st, key, slice, cap, now, {}), key, a) {
      BlockedAfterRun(st, key, slice, cap, now, {}, a);
      NoneAhead(st, a, now);
    }
  }
}
