/** Whole histories of the scorer: runs interleaved with arriving trades and wallets. */
module ScanHistory {
  import opened Basics
  import opened Identity
  import opened ScanStore
  import opened WalletSlice
  import opened WalletScores
  import opened ScanRuns

  datatype Event =
    | TradesArrive(rows: seq<Trade>)
    | WalletAdded(address: string, id: string)
    | Run(corpus: seq<string>, cap: nat, now: int, failing: set<string>, lost: Lost)

  /** Trades are appended at will and a wallet row gets an unused id. A run may have any clock,
      lose any of its classification queries and fail any of its inserts. */
  ghost predicate Allowed(st: Store, e: Event) {
    match e
    case WalletAdded(a, id) =>
      && a !in st.wallets && '|' !in id && id !in st.wallets.Values
      && forall i :: 0 <= i < |st.decisions| ==> st.decisions[i].wallet != id
    case _ => true
  }

  function Arrive(st: Store, rows: seq<Trade>): Store {
    st.(trades := st.trades + rows)
  }

  function AddWallet(st: Store, a: string, id: string): Store {
    st.(wallets := st.wallets[a := id])
  }

  function SliceBy(st: Store, e: Event): seq<string>
    requires e.Run?
  {
    SliceUnder(st, e.corpus, e.cap, e.lost)
  }

  function Exec(st: Store, key: KeyFunction, e: Event): Store {
    match e
    case TradesArrive(rows) => Arrive(st, rows)
    case WalletAdded(a, id) => AddWallet(st, a, id)
    case Run(corpus, cap, now, failing, lost) => AfterRun(st, key, corpus, cap, now, failing, lost)
  }

  function ExecAll(st: Store, key: KeyFunction, es: seq<Event>): Store {
    if es == [] then st else Exec(ExecAll(st, key, es[..|es| - 1]), key, es[|es| - 1])
  }

  ghost predicate AllowedAll(st: Store, key: KeyFunction, es: seq<Event>) {
    es != [] ==>
      AllowedAll(st, key, es[..|es| - 1]) && Allowed(ExecAll(st, key, es[..|es| - 1]), es[|es| - 1])
  }

  // ---- what the rows remember -------------------------------------------------------------

  /** Row r was keyed on the first n trades the wallet has. */
  ghost predicate Snapshot(key: KeyFunction, a: string, own: seq<Trade>, r: Decision, n: nat) {
    0 < n <= |own| && r.key == key(a, own[..n])
  }

  /** Every V1 row of every known wallet is such a snapshot. */
  ghost predicate Honest(st: Store, key: KeyFunction) {
    forall a, i {:trigger HonestRow(st, key, a, i)} :: HonestRow(st, key, a, i)
  }

  ghost predicate HonestRow(st: Store, key: KeyFunction, a: string, i: int) {
    a in st.wallets && 0 <= i < |st.decisions| && IsV1(st.decisions[i], st.wallets[a]) ==>
      exists n: nat :: Snapshot(key, a, OwnTrades(st.trades, a), st.decisions[i], n)
  }

  lemma PersistKeepsValid(st: Store, job: Job, addresses: seq<string>)
    requires Valid(st)
    ensures Valid(AfterPersist(st, job, addresses))
  {
    var chosen, after := Chosen(st, job, addresses), AfterPersist(st, job, addresses);
    ChosenReached(st, job, addresses);
    AscendingNoDuplicates(chosen);
    var m := |st.decisions|;
    forall i, j | 0 <= i < j < |after.decisions|
      ensures !SameIdentity(after.decisions[i], after.decisions[j])
    {
      if j >= m {
        var b := chosen[j - m];
        assert b in chosen && after.decisions[j] == RowFor(st, job, b);
        if i >= m {
          var a := chosen[i - m];
          assert a in chosen && a != b && after.decisions[i] == RowFor(st, job, a);
        } else {
          assert after.decisions[i] == st.decisions[i];
          assert !Tabled(st.decisions, st.wallets[b], job.keys[b]);
        }
      }
    }
  }

  /** A row a run has just written is a snapshot of everything its wallet has. */
  lemma ServedRowIsSnapshot(st: Store, key: KeyFunction, slice: seq<string>, now: int, failing: set<string>, b: string,
                            r: Decision)
    requires WalletsValid(st.wallets) && b in st.wallets
    requires ServedRow(st, key, slice, now, failing, r) && r.wallet == st.wallets[b]
    ensures Snapshot(key, b, OwnTrades(st.trades, b), r, |OwnTrades(st.trades, b)|)
  {
    var own := OwnTrades(st.trades, b);
    assert own[..|own|] == own;
  }

  lemma ServedRowsKeepHonest(st: Store, after: Store, key: KeyFunction, slice: seq<string>, now: int, failing: set<string>)
    requires WalletsValid(st.wallets) && Honest(st, key)
    requires after.wallets == st.wallets && after.trades == st.trades && st.decisions <= after.decisions
    requires forall i :: |st.decisions| <= i < |after.decisions| ==>
               ServedRow(st, key, slice, now, failing, after.decisions[i])
    ensures Honest(after, key)
  {
    forall b, i ensures HonestRow(after, key, b, i) {
      if b in after.wallets && 0 <= i < |after.decisions| && IsV1(after.decisions[i], after.wallets[b]) {
        if i < |st.decisions| {
          assert after.decisions[i] == st.decisions[i] && HonestRow(st, key, b, i);
        } else {
          ServedRowIsSnapshot(st, key, slice, now, failing, b, after.decisions[i]);
        }
      }
    }
  }

  lemma RunKeepsInvariants(st: Store, key: KeyFunction, slice: seq<string>, cap: nat, now: int, failing: set<string>)
    requires Valid(st) && Honest(st, key) && Fits(slice, cap)
    ensures var after := AfterSlice(st, key, slice, cap, now, failing); Valid(after) && Honest(after, key)
  {
    PersistKeepsValid(st, JobAt(st, key, slice, cap, now, failing), slice);
    SliceAppends(st, key, slice, cap, now, failing);
    ServedRowsKeepHonest(st, AfterSlice(st, key, slice, cap, now, failing), key, slice, now, failing);
  }

  /** Appending trades leaves every row a snapshot of a prefix of its wallet's trades. */
  lemma ArrivalsKeepHonest(st: Store, key: KeyFunction, rows: seq<Trade>)
    requires Honest(st, key)
    ensures Honest(Arrive(st, rows), key)
  {
    var after := Arrive(st, rows);
    forall a, i ensures HonestRow(after, key, a, i) {
      if a in after.wallets && 0 <= i < |after.decisions| && IsV1(after.decisions[i], after.wallets[a]) {
        assert HonestRow(st, key, a, i);
        var n: nat :| Snapshot(key, a, OwnTrades(st.trades, a), st.decisions[i], n);
        OwnTradesGrow(st.trades, rows, a);
        assert OwnTrades(after.trades, a)[..n] == OwnTrades(st.trades, a)[..n];
        assert Snapshot(key, a, OwnTrades(after.trades, a), after.decisions[i], n);
      }
    }
  }

  lemma NewWalletKeepsHonest(st: Store, key: KeyFunction, a: string, id: string)
    requires Honest(st, key) && Allowed(st, WalletAdded(a, id))
    ensures Honest(AddWallet(st, a, id), key)
  {
    forall b, i ensures HonestRow(AddWallet(st, a, id), key, b, i) {
      assert HonestRow(st, key, b, i);
    }
  }

  /** Every event keeps the unique rows, the wallet table and the honesty of all keys. */
  lemma EventKeepsInvariants(st: Store, key: KeyFunction, e: Event)
    requires Valid(st) && Honest(st, key) && Allowed(st, e)
    ensures Valid(Exec(st, key, e)) && Honest(Exec(st, key, e), key)
  {
    match e
    case TradesArrive(rows) =>
      ArrivalsKeepHonest(st, key, rows);
    case WalletAdded(a, id) =>
      assert forall b :: b in st.wallets ==> st.wallets[b] in st.wallets.Values;
      NewWalletKeepsHonest(st, key, a, id);
    case Run(corpus, cap, now, failing, lost) =>
      SliceUnderFits(st, corpus, cap, lost);
      RunKeepsInvariants(st, key, SliceUnder(st, corpus, cap, lost), cap, now, failing);
  }

  lemma {:induction false} HistoryKeepsInvariants(st: Store, key: KeyFunction, es: seq<Event>)
    requires Valid(st) && Honest(st, key) && AllowedAll(st, key, es)
    ensures Valid(ExecAll(st, key, es)) && Honest(ExecAll(st, key, es), key)
  {
    if es != [] {
      HistoryKeepsInvariants(st, key, es[..|es| - 1]);
      EventKeepsInvariants(ExecAll(st, key, es[..|es| - 1]), key, es[|es| - 1]);
    }
  }

  // ---- when the current key is in the table -----------------------------------------------

  /** The rows of a material-changed wallet all precede its newest trade. Its current key is in
      the table exactly when a row was keyed on these very trades and yet stamped before the
      newest of them; rows stamped in time were keyed on an older history. */
  lemma ChangedMeansNewKey(st: Store, key: KeyFunction, a: string)
    requires IsCanonical(a) && StateOf(st, a) == MaterialChanged
    ensures var own, w := OwnTrades(st.trades, a), st.wallets[a];
            && own != []
            && (Keyed(st, key, a) <==>
                exists i :: 0 <= i < |st.decisions| && IsV1(st.decisions[i], w)
                            && st.decisions[i].key == key(a, own) && st.decisions[i].stamp < Latest(own))
            && forall i, n: nat ::
                 (0 <= i < |st.decisions| && IsV1(st.decisions[i], w) && Snapshot(key, a, own, st.decisions[i], n)
                  && Latest(own[..n]) <= st.decisions[i].stamp)
                 ==> Latest(own[..n]) < Latest(own)
  {
    var own, w := OwnTrades(st.trades, a), st.wallets[a];
    var j :| 0 <= j < |st.trades| && st.trades[j].trader == Some(a) && NewerThanRows(st.trades[j], st.decisions, w);
    CanonicalMatchesItself(a);
    assert st.trades[j] in st.trades && Owns(a, st.trades[j]);
    assert st.trades[j] in own;
    ExtremesBound(own);
  }

  /** After trades arrive, a wallet's current key is in the table exactly when it was there before
      and none of the trades is the wallet's own, whatever their timestamps are. */
  lemma UpToDateUnlessOwnTrade(st: Store, key: KeyFunction, rows: seq<Trade>, a: string)
    requires Revealing(key) && Honest(st, key) && a in st.wallets
    ensures Keyed(Arrive(st, rows), key, a) <==> Keyed(st, key, a) && OwnTrades(rows, a) == []
  {
    var own, more := OwnTrades(st.trades, a), OwnTrades(rows, a);
    OwnTradesGrow(st.trades, rows, a);
    if more == [] {
      assert own + more == own;
    } else {
      forall i | 0 <= i < |st.decisions| && IsV1(st.decisions[i], st.wallets[a])
        ensures st.decisions[i].key != key(a, own + more)
      {
        RowHasOlderKey(st, key, a, i, own + more);
      }
    }
  }

  lemma RowHasOlderKey(st: Store, key: KeyFunction, a: string, i: nat, grown: seq<Trade>)
    requires Revealing(key) && Honest(st, key) && a in st.wallets
    requires i < |st.decisions| && IsV1(st.decisions[i], st.wallets[a]) && |OwnTrades(st.trades, a)| < |grown|
    ensures st.decisions[i].key != key(a, grown)
  {
    var own := OwnTrades(st.trades, a);
    assert HonestRow(st, key, a, i);
    var n: nat :| Snapshot(key, a, own, st.decisions[i], n);
    LongerHasNewKey(key, a, own[..n], grown);
  }

  lemma LongerHasNewKey(key: KeyFunction, a: string, x: seq<Trade>, y: seq<Trade>)
    requires Revealing(key) && 0 < |x| < |y|
    ensures key(a, x) != key(a, y)
  {
  }

  /** Only a trade recorded under exactly this address can outdate its wallet. */
  lemma ArrivalKeepsState(st: Store, rows: seq<Trade>, a: string)
    ensures StateOf(st, a) != AlreadyScored ==> StateOf(Arrive(st, rows), a) == StateOf(st, a)
    ensures (forall t :: t in rows ==> t.trader != Some(a)) ==> StateOf(Arrive(st, rows), a) == StateOf(st, a)
  {
    var after := Arrive(st, rows);
    assert forall j :: 0 <= j < |st.trades| ==> after.trades[j] == st.trades[j];
    if StateOf(st, a) == MaterialChanged {
      var j :| 0 <= j < |st.trades| && st.trades[j].trader == Some(a)
               && NewerThanRows(st.trades[j], st.decisions, st.wallets[a]);
      assert after.trades[j] == st.trades[j];
    }
    assert forall j :: |st.trades| <= j < |after.trades| ==> after.trades[j] in rows;
  }

  lemma OwnTradesIncludeExact(rows: seq<Trade>, a: string)
    requires IsCanonical(a) && OwnTrades(rows, a) == []
    ensures forall t :: t in rows ==> t.trader != Some(a)
  {
    CanonicalMatchesItself(a);
    assert forall t: Trade :: t.trader == Some(a) ==> Owns(a, t);
  }

  // ---- stuck wallets ------------------------------------------------------------------------

  /** The wallet is classified material changed although its current key is in the table: it
      takes a first-pass slot of every slice, and Step 5b finds nothing to write for it. */
  predicate Stuck(st: Store, key: KeyFunction, a: string) {
    a in st.wallets && StateOf(st, a) == MaterialChanged && Keyed(st, key, a)
  }

  /** The event is a run that writes the wallet's row although a newer trade of it lies ahead
      of the run's clock: the row is stamped before the trades it is keyed on. */
  predicate Freezes(st: Store, key: KeyFunction, e: Event, a: string) {
    e.Run? && Serves(st, key, SliceBy(st, e), e.failing, a) && Ahead(st, a, e.now)
  }

  /** The event brings an own trade. */
  predicate Frees(e: Event, a: string) {
    e.TradesArrive? && OwnTrades(e.rows, a) != []
  }

  lemma StuckAfterRun(st: Store, key: KeyFunction, e: Event, a: string)
    requires WalletsValid(st.wallets) && e.Run?
    ensures Stuck(Exec(st, key, e), key, a) <==> Stuck(st, key, a) || Freezes(st, key, e, a)
  {
    var slice := SliceBy(st, e);
    SliceUnderFits(st, e.corpus, e.cap, e.lost);
    RunDecidesState(st, key, slice, e.cap, e.now, e.failing, a);
    if a in st.wallets {
      RunDecidesKeyed(st, key, slice, e.cap, e.now, e.failing, a);
    } else {
      SliceAppends(st, key, slice, e.cap, e.now, e.failing);
    }
  }

  lemma StuckAfterArrival(st: Store, key: KeyFunction, rows: seq<Trade>, a: string)
    requires Revealing(key) && Honest(st, key) && IsCanonical(a)
    ensures Stuck(Arrive(st, rows), key, a) <==> Stuck(st, key, a) && OwnTrades(rows, a) == []
  {
    if a in st.wallets {
      UpToDateUnlessOwnTrade(st, key, rows, a);
      ArrivalKeepsState(st, rows, a);
      if OwnTrades(rows, a) == [] {
        OwnTradesIncludeExact(rows, a);
      }
    }
  }

  lemma StuckAfterWallet(st: Store, key: KeyFunction, b: string, id: string, a: string)
    requires Allowed(st, WalletAdded(b, id))
    ensures Stuck(AddWallet(st, b, id), key, a) <==> Stuck(st, key, a)
  {
    if a == b {
      assert !HasPrior(st.decisions, id);
    }
  }

  /** One event: a wallet is stuck afterwards exactly when this run froze it, or it was stuck
      and got no trade. */
  lemma StuckStep(st: Store, key: KeyFunction, e: Event, a: string)
    requires Revealing(key) && Valid(st) && Honest(st, key) && IsCanonical(a) && Allowed(st, e)
    ensures Stuck(Exec(st, key, e), key, a) <==> Freezes(st, key, e, a) || (Stuck(st, key, a) && !Frees(e, a))
  {
    match e
    case TradesArrive(rows) => StuckAfterArrival(st, key, rows, a);
    case WalletAdded(b, id) => StuckAfterWallet(st, key, b, id, a);
    case Run(_, _, _, _, _) => StuckAfterRun(st, key, e, a);
  }

  /** A test of an event, given the events before it. */
  type EventTest = (seq<Event>, Event) -> bool

  /** Event i passes the test, and no own trade has arrived since. */
  ghost predicate Since(test: EventTest, es: seq<Event>, a: string, i: nat)
    requires i < |es|
  {
    test(es[..i], es[i]) && NoTradeAfter(es, a, i)
  }

  predicate NoTradeAfter(es: seq<Event>, a: string, i: nat) {
    forall j :: i < j < |es| ==> !Frees(es[j], a)
  }

  lemma SinceStep(test: EventTest, es: seq<Event>, a: string, i: nat)
    requires i < |es| - 1
    ensures Since(test, es, a, i) <==> Since(test, es[..|es| - 1], a, i) && !Frees(es[|es| - 1], a)
  {
    var n := |es| - 1;
    assert es[..n][..i] == es[..i];
    assert forall j :: 0 <= j < n ==> es[..n][j] == es[j];
  }

  ghost predicate SomeSince(test: EventTest, es: seq<Event>, a: string) {
    exists i :: 0 <= i < |es| && Since(test, es, a, i)
  }

  lemma SomeSinceStep(test: EventTest, es: seq<Event>, a: string)
    requires es != []
    ensures var n := |es| - 1;
            SomeSince(test, es, a) <==> test(es[..n], es[n]) || (SomeSince(test, es[..n], a) && !Frees(es[n], a))
  {
    var n := |es| - 1;
    assert test(es[..n], es[n]) <==> Since(test, es, a, n);
    if SomeSince(test, es, a) && !Since(test, es, a, n) {
      var i :| 0 <= i < |es| && Since(test, es, a, i);
      SinceStep(test, es, a, i);
    }
    if SomeSince(test, es[..n], a) && !Frees(es[n], a) {
      var i :| 0 <= i < n && Since(test, es[..n], a, i);
      SinceStep(test, es, a, i);
    }
  }

  /** Some run of the history froze the wallet, and no own trade has arrived since. */
  ghost predicate Frozen(st: Store, key: KeyFunction, es: seq<Event>, a: string) {
    SomeSince((before, e) => Freezes(ExecAll(st, key, before), key, e, a), es, a)
  }

  lemma FrozenStep(st: Store, key: KeyFunction, es: seq<Event>, a: string)
    requires es != []
    ensures var n := |es| - 1;
            Frozen(st, key, es, a)
            <==> Freezes(ExecAll(st, key, es[..n]), key, es[n], a) || (Frozen(st, key, es[..n], a) && !Frees(es[n], a))
  {
    SomeSinceStep((before, e) => Freezes(ExecAll(st, key, before), key, e, a), es, a);
  }

  /** Over any history, with any clocks, failures and lost queries, a wallet is stuck exactly
      when some run wrote its row behind a trade it could see and no own trade has arrived
      since. */
  lemma {:induction false} StuckExactlyWhen(st: Store, key: KeyFunction, es: seq<Event>, a: string)
    requires Revealing(key) && Valid(st) && Honest(st, key) && IsCanonical(a) && AllowedAll(st, key, es)
    requires !Stuck(st, key, a)
    ensures Stuck(ExecAll(st, key, es), key, a) <==> Frozen(st, key, es, a)
  {
    if es != [] {
      var n := |es| - 1;
      StuckExactlyWhen(st, key, es[..n], a);
      HistoryKeepsInvariants(st, key, es[..n]);
      StuckStep(ExecAll(st, key, es[..n]), key, es[n], a);
      FrozenStep(st, key, es, a);
    }
  }

  lemma RunWritesExactlyWhen(st: Store, key: KeyFunction, slice: seq<string>, cap: nat, now: int, failing: set<string>, a: string)
    requires WalletsValid(st.wallets) && Fits(slice, cap) && a in st.wallets
    ensures (exists i: nat :: NewRow(st, AfterSlice(st, key, slice, cap, now, failing), a, now,
                                     key(a, OwnTrades(st.trades, a)), i))
            <==> Serves(st, key, slice, failing, a)
  {
    var after, k := AfterSlice(st, key, slice, cap, now, failing), key(a, OwnTrades(st.trades, a));
    SliceExtends(st, key, slice, cap, now, failing, a);
    if Serves(st, key, slice, failing, a) {
      ServedGetsRow(st, key, slice, cap, now, failing, a);
    } else {
      forall i: nat ensures !NewRow(st, after, a, now, k, i) {
        assert NewRow(st, after, a, now, k, i) ==> IsV1(after.decisions[i], st.wallets[a]);
      }
    }
  }

  /** What a run does for a wallet that it slices while it is material changed: it writes a new
      row unless the wallet is stuck, and the row settles it unless a newer trade of it lies
      ahead of the clock. */
  ghost predicate WorksUnless(s: Store, after: Store, key: KeyFunction, now: int, a: string, stuck: bool)
    requires a in s.wallets
  {
    && ((exists i: nat :: NewRow(s, after, a, now, key(a, OwnTrades(s.trades, a)), i)) <==> !stuck)
    && (StateOf(after, a) == AlreadyScored <==> !stuck && !Ahead(s, a, now))
  }

  /** When the proxy forces work. After any history that starts without decisions, the next run
      works for a canonical wallet that is material changed and sliced, and whose insert does not
      raise, exactly when the wallet is not frozen. */
  lemma ProxyForcesWork(st: Store, key: KeyFunction, es: seq<Event>, e: Event, a: string)
    requires Revealing(key) && WalletsValid(st.wallets) && st.decisions == []
    requires AllowedAll(st, key, es) && e.Run?
    requires var s := ExecAll(st, key, es);
             StateOf(s, a) == MaterialChanged && IsCanonical(a) && a in SliceBy(s, e) && a !in e.failing
    ensures var s := ExecAll(st, key, es); WorksUnless(s, Exec(s, key, e), key, e.now, a, Frozen(st, key, es, a))
  {
    HistoryKeepsInvariants(st, key, es);
    StuckExactlyWhen(st, key, es, a);
    ChangedAfterRun(ExecAll(st, key, es), key, e, a);
  }

  lemma ChangedAfterRun(s: Store, key: KeyFunction, e: Event, a: string)
    requires WalletsValid(s.wallets) && e.Run?
    requires StateOf(s, a) == MaterialChanged && IsCanonical(a) && a in SliceBy(s, e) && a !in e.failing
    ensures WorksUnless(s, Exec(s, key, e), key, e.now, a, Stuck(s, key, a))
  {
    SliceUnderFits(s, e.corpus, e.cap, e.lost);
    ChangedIsServed(s, key, SliceBy(s, e), e.cap, e.now, e.failing, a);
  }

  lemma ServedUnlessStuck(s: Store, key: KeyFunction, slice: seq<string>, failing: set<string>, a: string)
    requires StateOf(s, a) == MaterialChanged && IsCanonical(a) && a in slice && a !in failing
    ensures Serves(s, key, slice, failing, a) <==> !Stuck(s, key, a)
  {
    ChangedMeansNewKey(s, key, a);
  }

  lemma ChangedIsServed(s: Store, key: KeyFunction, slice: seq<string>, cap: nat, now: int, failing: set<string>, a: string)
    requires WalletsValid(s.wallets) && Fits(slice, cap)
    requires StateOf(s, a) == MaterialChanged && IsCanonical(a) && a in slice && a !in failing
    ensures WorksUnless(s, AfterSlice(s, key, slice, cap, now, failing), key, now, a, Stuck(s, key, a))
  {
    ServedUnlessStuck(s, key, slice, failing, a);
    RunWritesExactlyWhen(s, key, slice, cap, now, failing, a);
    RunDecidesState(s, key, slice, cap, now, failing, a);
  }

  /** Every run of the history has its clock past the trades it can see. */
  ghost predicate Timely(st: Store, key: KeyFunction, es: seq<Event>) {
    es != [] ==>
      var n := |es| - 1;
      && Timely(st, key, es[..n])
      && (es[n].Run? ==> NotBefore(es[n].now, ExecAll(st, key, es[..n]).trades))
  }

  /** Such a history freezes no wallet. */
  lemma {:induction false} TimelyFreezesNone(st: Store, key: KeyFunction, es: seq<Event>, a: string)
    requires Timely(st, key, es)
    ensures !Frozen(st, key, es, a)
  {
    if es != [] {
      var n := |es| - 1;
      TimelyFreezesNone(st, key, es[..n], a);
      FrozenStep(st, key, es, a);
      if es[n].Run? {
        NoneAhead(ExecAll(st, key, es[..n]), a, es[n].now);
      }
    }
  }

  // ---- a wallet that gets stuck ---------------------------------------------------------------

  lemma AddressIsCanonical()
    ensures IsCanonical("z")
  {
    assert Leading("z", CanonicalStrip) == 0 && "z"[0..] == "z" && Trailing("z", CanonicalStrip) == 0;
    assert Strip("z", CanonicalStrip) == "z" && Lower("z") == "z";
  }

  const TRADE_AT_7 := Trade(Some("z"), 7, "BUY", 0.5, "m", false)

  /** Wallet "z" is known and has a trade at 7; nothing is scored yet. */
  const UNSCORED := Store(map["z" := "w"], [TRADE_AT_7], [])

  lemma OnlyTradeIsOwn()
    ensures OwnTrades([TRADE_AT_7], "z") == [TRADE_AT_7]
  {
    AddressIsCanonical();
    CanonicalMatchesItself("z");
    assert Owns("z", TRADE_AT_7) && [TRADE_AT_7][..0] == [];
  }

  lemma OnlyAddressIsSliced(st: Store, lost: Lost)
    ensures SliceUnder(st, ["z"], 1, lost) == ["z"]
  {
    var slice := SliceUnder(st, ["z"], 1, lost);
    SliceShape(["z"], Needs(st, lost, ["z"]), 1);
    assert Elements(["z"]) == {"z"};
    assert slice[0] in slice;
  }

  /** A scan reads its clock at 5 and then fetches a trade of 7. Its row is stamped 5, so the
      wallet is stuck, and no later scan changes anything, whatever its clock. */
  lemma EarlyClockExample(key: KeyFunction, later: int)
    ensures var run := Run(["z"], 1, 5, {}, NOTHING_LOST);
            var s := Exec(UNSCORED, key, run);
            && s.decisions == [Decision("w", V1, key("z", [TRADE_AT_7]), 5)]
            && Freezes(UNSCORED, key, run, "z") && Stuck(s, key, "z")
            && Exec(s, key, run.(now := later)) == s
  {
    var run := Run(["z"], 1, 5, {}, NOTHING_LOST);
    var s := Exec(UNSCORED, key, run);
    OnlyTradeIsOwn();
    OnlyAddressIsSliced(UNSCORED, NOTHING_LOST);
    ScoresTheOne(UNSCORED, key, 5);
    assert UNSCORED.trades[0].trader == Some("z") && NewerThanRows(TRADE_AT_7, UNSCORED.decisions, "w");
    assert Ahead(UNSCORED, "z", 5);
    StuckAfterRun(UNSCORED, key, run, "z");
    OnlyAddressIsSliced(s, NOTHING_LOST);
    ScoresTheOne(s, key, later);
  }

  /** What a run does to a store whose one wallet has one trade. */
  lemma ScoresTheOne(st: Store, key: KeyFunction, now: int)
    requires st.wallets == map["z" := "w"] && OwnTrades(st.trades, "z") == [TRADE_AT_7]
    ensures AfterSlice(st, key, ["z"], 1, now, {}).decisions
            == st.decisions + if Keyed(st, key, "z") then [] else [Decision("w", V1, key("z", [TRADE_AT_7]), now)]
    ensures Keyed(st, key, "z") ==> AfterSlice(st, key, ["z"], 1, now, {}) == st
  {
    var job := JobAt(st, key, ["z"], 1, now, {});
    assert Ascending(["z"]);
    ChosenIsServed(st, key, ["z"], 1, now, {}, "z");
    var chosen := Chosen(st, job, ["z"]);
    ChosenReached(st, job, ["z"]);
    forall i | 0 <= i < |chosen| ensures chosen[i] == "z" {
      assert chosen[i] in chosen && chosen[i] in Pending(st, job, ["z"]);
    }
    assert |chosen| <= 1 by {
      AscendingNoDuplicates(chosen);
    }
    assert chosen == if Keyed(st, key, "z") then [] else ["z"];
  }

  // ---- what the proxy misses ------------------------------------------------------------------

  lemma LateTradeKeepsState(st: Store, t: Trade, a: string, i: nat)
    requires a in st.wallets && StateOf(st, a) == AlreadyScored
    requires i < |st.decisions| && IsV1(st.decisions[i], st.wallets[a]) && t.at <= st.decisions[i].stamp
    ensures StateOf(Arrive(st, [t]), a) == AlreadyScored
  {
    var after := Arrive(st, [t]);
    forall j | 0 <= j < |after.trades| && after.trades[j].trader == Some(a)
      ensures !NewerThanRows(after.trades[j], after.decisions, after.wallets[a])
    {
      if j < |st.trades| { assert after.trades[j] == st.trades[j]; }
    }
  }

  lemma RecordedTradeIsOwn(t: Trade, a: string)
    requires IsCanonical(a) && t.trader == Some(a)
    ensures OwnTrades([t], a) != []
  {
    CanonicalMatchesItself(a);
    assert t in [t] && Owns(a, t) && t in OwnTrades([t], a);
  }

  /** A trade that arrives late, stamped no later than the wallet's last row, leaves the wallet
      "already scored" although its key is new: the filler slot writes a row after all. The
      documentation calls this case impossible by construction. */
  lemma LateTradeIsMissed(st: Store, key: KeyFunction, t: Trade, a: string, i: nat)
    requires Revealing(key) && Honest(st, key) && a in st.wallets && Keyed(st, key, a)
    requires StateOf(st, a) == AlreadyScored && IsCanonical(a)
    requires i < |st.decisions| && IsV1(st.decisions[i], st.wallets[a])
    requires t.trader == Some(a) && t.at <= st.decisions[i].stamp
    ensures StateOf(Arrive(st, [t]), a) == AlreadyScored && !Keyed(Arrive(st, [t]), key, a)
  {
    LateTradeKeepsState(st, t, a, i);
    RecordedTradeIsOwn(t, a);
    UpToDateUnlessOwnTrade(st, key, [t], a);
  }

  /** The row that a run at 10 wrote for that wallet. */
  function ScoredAt10(key: KeyFunction): Store {
    UNSCORED.(decisions := [Decision("w", V1, key("z", [TRADE_AT_7]), 10)])
  }

  lemma ScoredIsHonest(key: KeyFunction)
    ensures var st := ScoredAt10(key);
            && Valid(st) && Honest(st, key) && StateOf(st, "z") == AlreadyScored
            && OwnTrades(st.trades, "z") == st.trades && IsV1(st.decisions[0], "w") && Keyed(st, key, "z")
  {
    var st := ScoredAt10(key);
    OnlyTradeIsOwn();
    assert IsV1(st.decisions[0], "w") && st.decisions[0].key == key("z", st.trades);
    forall a, i ensures HonestRow(st, key, a, i) {
      assert st.trades[..1] == st.trades;
      assert Snapshot(key, "z", st.trades, st.decisions[0], 1);
    }
  }

  /** A concrete late trade: wallet "z" was scored at 10 on its trade at 7; a trade at 8 arrives
      afterwards. The wallet stays already scored, and its key is in no row. */
  lemma LateTradeExample(key: KeyFunction)
    requires Revealing(key)
    ensures var st := ScoredAt10(key);
            var after := Arrive(st, [TRADE_AT_7.(at := 8)]);
            StateOf(st, "z") == StateOf(after, "z") == AlreadyScored && !Keyed(after, key, "z")
  {
    AddressIsCanonical();
    ScoredIsHonest(key);
    LateTradeIsMissed(ScoredAt10(key), key, TRADE_AT_7.(at := 8), "z", 0);
  }
}
