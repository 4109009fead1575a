/** How many runs score a whole corpus. */
module ScanCoverage {
  import opened Basics
  import opened ScanStore
  import opened WalletSlice
  import opened ScanRuns
  import opened ScanHistory
  import opened ScanLedger
  import opened ScanWaiting

  predicate Covered(st: Store, corpus: seq<string>) {
    forall a :: a in corpus ==> StateOf(st, a) == AlreadyScored
  }

  lemma CoveredMeans(st: Store, corpus: seq<string>)
    ensures Covered(st, corpus) <==> |Backlog(st, corpus)| == 0
  {
    assert |Backlog(st, corpus)| == 0 <==> Backlog(st, corpus) == {};
    if Backlog(st, corpus) == {} {
      forall a | a in corpus ensures StateOf(st, a) == AlreadyScored {
        assert a !in Backlog(st, corpus);
      }
    }
  }

  /** Over any history, with any clocks, failures and lost queries: the corpus is covered exactly
      when the runs have cleared as many wallets as were in the backlog or entered it. */
  lemma CoveredByLedger(st: Store, key: KeyFunction, es: seq<Event>, corpus: seq<string>)
    requires WalletsValid(st.wallets) && AllowedAll(st, key, es)
    ensures Covered(ExecAll(st, key, es), corpus)
            <==> TotalCleared(st, key, es, corpus) == |Backlog(st, corpus)| + TotalEntered(st, key, es, corpus)
  {
    BacklogLedger(st, key, es, corpus);
    CoveredMeans(ExecAll(st, key, es), corpus);
  }

  // ---- runs over one corpus -------------------------------------------------------------------

  function OneRun(st: Store, key: KeyFunction, corpus: seq<string>, cap: nat, now: int): Store {
    AfterRun(st, key, corpus, cap, now, {}, NOTHING_LOST)
  }

  /** Failure-free runs over one corpus, one per clock reading. */
  function AfterRuns(st: Store, key: KeyFunction, corpus: seq<string>, cap: nat, clocks: seq<int>): Store
    decreases |clocks|
  {
    if clocks == [] then st else AfterRuns(OneRun(st, key, corpus, cap, clocks[0]), key, corpus, cap, clocks[1..])
  }

  ghost predicate NoneBefore(clocks: seq<int>, trades: seq<Trade>) {
    forall i :: 0 <= i < |clocks| ==> NotBefore(clocks[i], trades)
  }

  /** What is left of a backlog after k runs of this cap, one run at a time. */
  function Left(backlog: nat, cap: nat, k: nat): nat {
    if k == 0 then backlog else Left(backlog - Min(cap, backlog), cap, k - 1)
  }

  lemma {:induction false} LeftIs(backlog: nat, cap: nat, k: nat)
    ensures Left(backlog, cap, k) == Max(0, backlog - k * cap)
  {
    if k > 0 {
      LeftIs(backlog - Min(cap, backlog), cap, k - 1);
      assert k * cap == (k - 1) * cap + cap;
    }
  }

  /** The first of the runs leaves what the others need. */
  lemma FirstRunKeeps(st: Store, key: KeyFunction, corpus: seq<string>, cap: nat, clocks: seq<int>)
    requires clocks != [] && WalletsValid(st.wallets) && NoneBlocked(st, key, corpus) && NoneBefore(clocks, st.trades)
    ensures var after := OneRun(st, key, corpus, cap, clocks[0]);
            && WalletsValid(after.wallets) && NoneBlocked(after, key, corpus) && NoneBefore(clocks[1..], after.trades)
            && |Backlog(after, corpus)| == |Backlog(st, corpus)| - Min(cap, |Backlog(st, corpus)|)
  {
    assert NotBefore(clocks[0], st.trades);
    RunLowersBacklog(st, key, corpus, cap, clocks[0]);
  }

  lemma FirstRunFirst(st: Store, key: KeyFunction, corpus: seq<string>, cap: nat, clocks: seq<int>)
    requires clocks != []
    ensures AfterRuns(st, key, corpus, cap, clocks)
            == AfterRuns(OneRun(st, key, corpus, cap, clocks[0]), key, corpus, cap, clocks[1..])
  {
  }

  lemma {:induction false} RunsLeave(st: Store, key: KeyFunction, corpus: seq<string>, cap: nat, clocks: seq<int>, left: nat)
    requires WalletsValid(st.wallets) && NoneBlocked(st, key, corpus) && NoneBefore(clocks, st.trades)
    requires left == |Backlog(st, corpus)|
    ensures |Backlog(AfterRuns(st, key, corpus, cap, clocks), corpus)| == Left(left, cap, |clocks|)
    decreases |clocks|
  {
    if clocks != [] {
      FirstRunKeeps(st, key, corpus, cap, clocks);
      RunsLeave(OneRun(st, key, corpus, cap, clocks[0]), key, corpus, cap, clocks[1..], left - Min(cap, left));
      FirstRunLeaves(st, key, corpus, cap, clocks, left);
    }
  }

  lemma FirstRunLeaves(st: Store, key: KeyFunction, corpus: seq<string>, cap: nat, clocks: seq<int>, left: nat)
    requires clocks != []
    requires |Backlog(AfterRuns(OneRun(st, key, corpus, cap, clocks[0]), key, corpus, cap, clocks[1..]), corpus)|
             == Left(left - Min(cap, left), cap, |clocks[1..]|)
    ensures |Backlog(AfterRuns(st, key, corpus, cap, clocks), corpus)| == Left(left, cap, |clocks|)
  {
    FirstRunFirst(st, key, corpus, cap, clocks);
  }

  /** Whole-corpus progress: with clocks past the trades and no blocked wallet, every run lowers
      the number of fresh and material-changed wallets by exactly min(cap, that number). */
  lemma RunsClearBacklog(st: Store, key: KeyFunction, corpus: seq<string>, cap: nat, clocks: seq<int>)
    requires WalletsValid(st.wallets) && NoneBlocked(st, key, corpus) && NoneBefore(clocks, st.trades)
    ensures |Backlog(AfterRuns(st, key, corpus, cap, clocks), corpus)|
            == Max(0, |Backlog(st, corpus)| - |clocks| * cap)
  {
    RunsLeave(st, key, corpus, cap, clocks, |Backlog(st, corpus)|);
    LeftIs(|Backlog(st, corpus)|, cap, |clocks|);
  }

  /** A blocked wallet stays blocked whatever the clocks are. */
  lemma {:induction false} BlockedOutlastsRuns(st: Store, key: KeyFunction, corpus: seq<string>, cap: nat, clocks: seq<int>,
                                               a: string)
    requires WalletsValid(st.wallets) && Blocked(st, key, a)
    ensures Blocked(AfterRuns(st, key, corpus, cap, clocks), key, a)
    decreases |clocks|
  {
    if clocks != [] {
      SliceUnderFits(st, corpus, cap, NOTHING_LOST);
      BlockedAfterRun(st, key, SliceUnder(st, corpus, cap, NOTHING_LOST), cap, clocks[0], {}, a);
      BlockedOutlastsRuns(OneRun(st, key, corpus, cap, clocks[0]), key, corpus, cap, clocks[1..], a);
    }
  }

  /** With clocks past the trades, k runs score a whole corpus exactly when none of its wallets is
      blocked and k * cap reaches its backlog. */
  lemma CoveredExactlyWhen(st: Store, key: KeyFunction, corpus: seq<string>, cap: nat, clocks: seq<int>)
    requires WalletsValid(st.wallets) && NoneBefore(clocks, st.trades)
    ensures Covered(AfterRuns(st, key, corpus, cap, clocks), corpus)
            <==> NoneBlocked(st, key, corpus) && |clocks| * cap >= |Backlog(st, corpus)|
  {
    var after := AfterRuns(st, key, corpus, cap, clocks);
    if NoneBlocked(st, key, corpus) {
      RunsClearBacklog(st, key, corpus, cap, clocks);
      CoveredMeans(after, corpus);
    } else {
      var a :| a in corpus && Blocked(st, key, a);
      BlockedOutlastsRuns(st, key, corpus, cap, clocks, a);
      assert Blocked(after, key, a);
    }
  }

  // ---- any clocks -----------------------------------------------------------------------------

  /** A wallet with q backlog wallets before it has its turn in one of these runs, and the clock
      of that run lies past its newer trades. */
  predicate InTurn(st: Store, a: string, q: nat, cap: nat, clocks: seq<int>)
    decreases |clocks|
  {
    && clocks != []
    && if q < cap then a in st.wallets && !Ahead(st, a, clocks[0]) else InTurn(st, a, q - cap, cap, clocks[1..])
  }

  ghost predicate AllInTurn(st: Store, corpus: seq<string>, cap: nat, clocks: seq<int>) {
    forall a :: a in Backlog(st, corpus) ==> InTurn(st, a, |Queue(st, corpus, a)|, cap, clocks)
  }

  /** The run finds no blocked wallet and writes no row behind a newer trade. */
  ghost predicate Clean(st: Store, key: KeyFunction, corpus: seq<string>, cap: nat, now: int) {
    NoneBlocked(st, key, corpus)
    && forall a :: a in Backlog(st, corpus) && |Queue(st, corpus, a)| < cap ==> a in st.wallets && !Ahead(st, a, now)
  }

  lemma TurnOf(st: Store, corpus: seq<string>, cap: nat, now: int, a: string)
    requires a in Backlog(st, corpus)
    ensures a in SliceUnder(st, corpus, cap, NOTHING_LOST) <==> |Queue(st, corpus, a)| < cap
  {
    var e := Run(corpus, cap, now, {}, NOTHING_LOST);
    NothingMisjudged(st, e, a);
    SlicedExactlyWhen(st, e, a);
  }

  /** A wallet that is not served has the same newer trades as before. */
  lemma UnservedKeepsAhead(st: Store, key: KeyFunction, corpus: seq<string>, cap: nat, now: int, a: string, later: int)
    requires WalletsValid(st.wallets) && a in st.wallets && a !in SliceUnder(st, corpus, cap, NOTHING_LOST)
    ensures var after := OneRun(st, key, corpus, cap, now);
            a in after.wallets && (Ahead(after, a, later) <==> Ahead(st, a, later))
  {
    var slice := SliceUnder(st, corpus, cap, NOTHING_LOST);
    var after := AfterSlice(st, key, slice, cap, now, {});
    SliceUnderFits(st, corpus, cap, NOTHING_LOST);
    SliceExtends(st, key, slice, cap, now, {}, a);
    forall j | 0 <= j < |st.trades|
      ensures NewerThanRows(st.trades[j], after.decisions, st.wallets[a])
              <==> NewerThanRows(st.trades[j], st.decisions, st.wallets[a])
    {
      NewerAfter(st, after, st.wallets[a], now, false, st.trades[j]);
    }
  }

  /** A clean run scores every wallet whose turn it is. */
  lemma CleanRunScores(st: Store, key: KeyFunction, corpus: seq<string>, cap: nat, now: int, a: string)
    requires WalletsValid(st.wallets) && Clean(st, key, corpus, cap, now)
    requires a in Backlog(st, corpus) && |Queue(st, corpus, a)| < cap
    ensures StateOf(OneRun(st, key, corpus, cap, now), a) == AlreadyScored
  {
    SliceUnderFits(st, corpus, cap, NOTHING_LOST);
    TurnOf(st, corpus, cap, now, a);
    RunDecidesState(st, key, SliceUnder(st, corpus, cap, NOTHING_LOST), cap, now, {}, a);
  }

  /** And moves every other backlog wallet up by cap places. */
  lemma CleanRunMovesUp(st: Store, key: KeyFunction, corpus: seq<string>, cap: nat, now: int, a: string)
    requires WalletsValid(st.wallets) && Clean(st, key, corpus, cap, now)
    requires a in Backlog(st, corpus) && |Queue(st, corpus, a)| >= cap
    ensures var after := OneRun(st, key, corpus, cap, now);
            a in Backlog(after, corpus) && |Queue(after, corpus, a)| == |Queue(st, corpus, a)| - cap
  {
    var e := Run(corpus, cap, now, {}, NOTHING_LOST);
    TurnOf(st, corpus, cap, now, a);
    UnslicedStays(st, key, e, a);
    RunClearsAhead(st, key, e, a);
    IdleSlotsAre(st, key, e, a);
    forall b | b in Queue(st, corpus, a) ensures b !in Idlers(st, key, e, a) {
      TurnOf(st, corpus, cap, now, b);
      if b in Idlers(st, key, e, a) {
        IdlersAre(st, key, e, a, b);
      }
    }
    assert Idlers(st, key, e, a) == {};
  }

  lemma CleanRunBlocksNone(st: Store, key: KeyFunction, corpus: seq<string>, cap: nat, now: int)
    requires WalletsValid(st.wallets)
    ensures NoneBlocked(OneRun(st, key, corpus, cap, now), key, corpus) <==> Clean(st, key, corpus, cap, now)
  {
    var slice := SliceUnder(st, corpus, cap, NOTHING_LOST);
    SliceUnderFits(st, corpus, cap, NOTHING_LOST);
    forall a | a in corpus
      ensures Blocked(OneRun(st, key, corpus, cap, now), key, a)
              <==> Blocked(st, key, a) || (Serves(st, key, slice, {}, a) && Ahead(st, a, now))
    {
      BlockedAfterRun(st, key, slice, cap, now, {}, a);
    }
    forall a | a in Backlog(st, corpus) ensures a in slice <==> |Queue(st, corpus, a)| < cap {
      TurnOf(st, corpus, cap, now, a);
    }
    forall a | a in corpus && a in st.wallets && Ahead(st, a, now) ensures a in Backlog(st, corpus) {
      AheadNeedsWork(st, a, now);
    }
  }

  lemma {:induction false} InTurnLater(st: Store, after: Store, a: string, q: nat, cap: nat, clocks: seq<int>)
    requires a in st.wallets <==> a in after.wallets
    requires a in st.wallets ==> forall t :: Ahead(after, a, t) <==> Ahead(st, a, t)
    ensures InTurn(after, a, q, cap, clocks) <==> InTurn(st, a, q, cap, clocks)
    decreases |clocks|
  {
    if clocks != [] && q >= cap {
      InTurnLater(st, after, a, q - cap, cap, clocks[1..]);
    }
  }

  /** After a clean first run the others have their turn one run earlier. */
  lemma TurnComesCloser(st: Store, key: KeyFunction, corpus: seq<string>, cap: nat, clocks: seq<int>, a: string)
    requires WalletsValid(st.wallets) && clocks != [] && Clean(st, key, corpus, cap, clocks[0])
    requires a in Backlog(st, corpus) && |Queue(st, corpus, a)| >= cap
    ensures var after := OneRun(st, key, corpus, cap, clocks[0]);
            && a in Backlog(after, corpus)
            && (InTurn(st, a, |Queue(st, corpus, a)|, cap, clocks)
                <==> InTurn(after, a, |Queue(after, corpus, a)|, cap, clocks[1..]))
  {
    var after := OneRun(st, key, corpus, cap, clocks[0]);
    CleanRunMovesUp(st, key, corpus, cap, clocks[0], a);
    TurnOf(st, corpus, cap, clocks[0], a);
    if a in st.wallets {
      forall t ensures Ahead(after, a, t) <==> Ahead(st, a, t) {
        UnservedKeepsAhead(st, key, corpus, cap, clocks[0], a, t);
      }
    }
    InTurnLater(st, after, a, |Queue(after, corpus, a)|, cap, clocks[1..]);
  }

  lemma NothingEnters(st: Store, key: KeyFunction, corpus: seq<string>, cap: nat, now: int, a: string)
    requires WalletsValid(st.wallets) && a in Backlog(OneRun(st, key, corpus, cap, now), corpus)
    ensures a in Backlog(st, corpus)
  {
    EventMovesBacklog(st, key, Run(corpus, cap, now, {}, NOTHING_LOST), corpus);
  }

  lemma AllInTurnStep(st: Store, key: KeyFunction, corpus: seq<string>, cap: nat, clocks: seq<int>)
    requires WalletsValid(st.wallets) && clocks != [] && Clean(st, key, corpus, cap, clocks[0])
    ensures AllInTurn(st, corpus, cap, clocks)
            <==> AllInTurn(OneRun(st, key, corpus, cap, clocks[0]), corpus, cap, clocks[1..])
  {
    var after := OneRun(st, key, corpus, cap, clocks[0]);
    forall a | a in Backlog(st, corpus) && |Queue(st, corpus, a)| >= cap
      ensures a in Backlog(after, corpus)
      ensures InTurn(st, a, |Queue(st, corpus, a)|, cap, clocks)
              <==> InTurn(after, a, |Queue(after, corpus, a)|, cap, clocks[1..])
    {
      TurnComesCloser(st, key, corpus, cap, clocks, a);
    }
    forall a | a in Backlog(after, corpus) ensures a in Backlog(st, corpus) && |Queue(st, corpus, a)| >= cap {
      NothingEnters(st, key, corpus, cap, clocks[0], a);
      if |Queue(st, corpus, a)| < cap {
        CleanRunScores(st, key, corpus, cap, clocks[0], a);
      }
    }
  }

  /** With any clocks: failure-free runs score a whole corpus exactly when none of its wallets is
      blocked and each backlog wallet has its turn, q / cap runs from now for a wallet with q
      before it, in a run whose clock lies past its newer trades. */
  lemma {:induction false} CoveredInTurnExactlyWhen(st: Store, key: KeyFunction, corpus: seq<string>, cap: nat, clocks: seq<int>)
    requires WalletsValid(st.wallets)
    ensures Covered(AfterRuns(st, key, corpus, cap, clocks), corpus)
            <==> NoneBlocked(st, key, corpus) && AllInTurn(st, corpus, cap, clocks)
    decreases |clocks|
  {
    if clocks == [] {
      CoveredMeans(st, corpus);
    } else {
      var after := OneRun(st, key, corpus, cap, clocks[0]);
      CoveredInTurnExactlyWhen(after, key, corpus, cap, clocks[1..]);
      CleanRunBlocksNone(st, key, corpus, cap, clocks[0]);
      if Clean(st, key, corpus, cap, clocks[0]) {
        AllInTurnStep(st, key, corpus, cap, clocks);
      }
    }
  }
}
