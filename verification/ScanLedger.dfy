/** The ledger of the backlog: what every event of a history clears and lets in. */
module ScanLedger {
  import opened Basics
  import opened ScanStore
  import opened WalletSlice
  import opened ScanRuns
  import opened ScanHistory

  /** A row recorded under exactly this address is newer than the wallet's decisions. */
  predicate Outdating(st: Store, rows: seq<Trade>, a: string)
    requires a in st.wallets
  {
    exists j :: 0 <= j < |rows| && rows[j].trader == Some(a) && NewerThanRows(rows[j], st.decisions, st.wallets[a])
  }

  /** The scored wallets of the corpus that an event puts back into the backlog. */
  function Entered(st: Store, e: Event, corpus: seq<string>): set<string> {
    if e.TradesArrive? then set a | a in corpus && StateOf(st, a) == AlreadyScored && Outdating(st, e.rows, a) else {}
  }

  /** The wallets of the backlog that an event moves to "already scored". */
  function ClearedBy(st: Store, key: KeyFunction, e: Event, corpus: seq<string>): set<string> {
    if e.Run? then Cleared(st, key, corpus, SliceBy(st, e), e.now, e.failing) else {}
  }

  /** Arriving trades never take a wallet out of the backlog. They add exactly the scored
      wallets with a newer trade, and so only traders of theirs. */
  lemma ArrivalsGrowBacklog(st: Store, rows: seq<Trade>, corpus: seq<string>)
    ensures var entered := Entered(st, TradesArrive(rows), corpus);
            && Backlog(Arrive(st, rows), corpus) == Backlog(st, corpus) + entered
            && (forall a :: a in entered ==> exists t :: t in rows && t.trader == Some(a))
  {
    var after, entered := Arrive(st, rows), Entered(st, TradesArrive(rows), corpus);
    forall a ensures a in Backlog(after, corpus) <==> a in Backlog(st, corpus) + entered {
      ArrivalDecidesState(st, rows, a);
    }
    forall a | a in entered ensures exists t :: t in rows && t.trader == Some(a) {
      var j :| 0 <= j < |rows| && rows[j].trader == Some(a) && NewerThanRows(rows[j], st.decisions, st.wallets[a]);
      assert rows[j] in rows;
    }
  }

  lemma ArrivalDecidesState(st: Store, rows: seq<Trade>, a: string)
    ensures StateOf(Arrive(st, rows), a)
            == if StateOf(st, a) == AlreadyScored && Outdating(st, rows, a) then MaterialChanged else StateOf(st, a)
  {
    var after := Arrive(st, rows);
    assert forall j :: 0 <= j < |st.trades| ==> after.trades[j] == st.trades[j];
    assert forall j :: 0 <= j < |rows| ==> after.trades[|st.trades| + j] == rows[j];
    ArrivalKeepsState(st, rows, a);
    if StateOf(st, a) == AlreadyScored {
      if Outdating(st, rows, a) {
        var j :| 0 <= j < |rows| && rows[j].trader == Some(a) && NewerThanRows(rows[j], st.decisions, st.wallets[a]);
        assert after.trades[|st.trades| + j] == rows[j];
      }
      if Outdated(after, a) {
        var j :| 0 <= j < |after.trades| && after.trades[j].trader == Some(a)
                 && NewerThanRows(after.trades[j], after.decisions, after.wallets[a]);
        assert j >= |st.trades|;
        assert rows[j - |st.trades|] == after.trades[j];
      }
    }
  }

  /** A new wallet row changes no wallet's state: the wallet itself stays fresh. */
  lemma NewWalletKeepsState(st: Store, b: string, id: string, a: string)
    requires Allowed(st, WalletAdded(b, id))
    ensures StateOf(AddWallet(st, b, id), a) == StateOf(st, a)
  {
    if a == b {
      assert !HasPrior(st.decisions, id);
    }
  }

  lemma NewWalletKeepsBacklog(st: Store, b: string, id: string, corpus: seq<string>)
    requires Allowed(st, WalletAdded(b, id))
    ensures Backlog(AddWallet(st, b, id), corpus) == Backlog(st, corpus)
  {
    forall a ensures StateOf(AddWallet(st, b, id), a) == StateOf(st, a) {
      NewWalletKeepsState(st, b, id, a);
    }
  }

  lemma RunMovesBacklog(st: Store, key: KeyFunction, e: Event, corpus: seq<string>)
    requires WalletsValid(st.wallets) && e.Run?
    ensures Backlog(Exec(st, key, e), corpus) == Backlog(st, corpus) - ClearedBy(st, key, e, corpus)
  {
    SliceUnderFits(st, e.corpus, e.cap, e.lost);
    RunClears(st, key, corpus, SliceBy(st, e), e.cap, e.now, e.failing);
  }

  /** What is cleared was in the backlog, and what enters was not. */
  lemma MovesAreReal(st: Store, key: KeyFunction, e: Event, corpus: seq<string>)
    ensures ClearedBy(st, key, e, corpus) <= Backlog(st, corpus)
    ensures Entered(st, e, corpus) !! Backlog(st, corpus)
  {
  }

  lemma SizeAfterMove(b: set<string>, cleared: set<string>, entered: set<string>)
    requires cleared <= b && entered !! b
    ensures |b - cleared + entered| == |b| - |cleared| + |entered|
  {
    assert |b - cleared| == |b| - |cleared|;
    assert (b - cleared) !! entered;
  }

  /** Every event moves the backlog by exactly what it clears and what it lets in. */
  lemma EventMovesBacklog(st: Store, key: KeyFunction, e: Event, corpus: seq<string>)
    requires WalletsValid(st.wallets) && Allowed(st, e)
    ensures Backlog(Exec(st, key, e), corpus) == Backlog(st, corpus) - ClearedBy(st, key, e, corpus) + Entered(st, e, corpus)
    ensures |Backlog(Exec(st, key, e), corpus)|
            == |Backlog(st, corpus)| - |ClearedBy(st, key, e, corpus)| + |Entered(st, e, corpus)|
  {
    MovesAreReal(st, key, e, corpus);
    SizeAfterMove(Backlog(st, corpus), ClearedBy(st, key, e, corpus), Entered(st, e, corpus));
    match e
    case TradesArrive(rows) => ArrivalsGrowBacklog(st, rows, corpus);
    case WalletAdded(b, id) => NewWalletKeepsBacklog(st, b, id, corpus);
    case Run(_, _, _, _, _) => RunMovesBacklog(st, key, e, corpus);
  }

  function TotalEntered(st: Store, key: KeyFunction, es: seq<Event>, corpus: seq<string>): nat {
    if es == [] then 0
    else
      var n := |es| - 1;
      TotalEntered(st, key, es[..n], corpus) + |Entered(ExecAll(st, key, es[..n]), es[n], corpus)|
  }

  function TotalCleared(st: Store, key: KeyFunction, es: seq<Event>, corpus: seq<string>): nat {
    if es == [] then 0
    else
      var n := |es| - 1;
      TotalCleared(st, key, es[..n], corpus) + |ClearedBy(ExecAll(st, key, es[..n]), key, es[n], corpus)|
  }

  lemma {:induction false} HistoryKeepsWallets(st: Store, key: KeyFunction, es: seq<Event>)
    requires WalletsValid(st.wallets) && AllowedAll(st, key, es)
    ensures WalletsValid(ExecAll(st, key, es).wallets)
  {
    if es != [] {
      var n := |es| - 1;
      HistoryKeepsWallets(st, key, es[..n]);
      EventKeepsWallets(ExecAll(st, key, es[..n]), key, es[n]);
    }
  }

  lemma EventKeepsWallets(st: Store, key: KeyFunction, e: Event)
    requires WalletsValid(st.wallets) && Allowed(st, e)
    ensures WalletsValid(Exec(st, key, e).wallets)
    ensures forall a :: a in st.wallets ==> a in Exec(st, key, e).wallets && Exec(st, key, e).wallets[a] == st.wallets[a]
  {
    match e
    case TradesArrive(_) =>
    case WalletAdded(_, _) =>
      assert forall b :: b in st.wallets ==> st.wallets[b] in st.wallets.Values;
    case Run(_, _, _, _, _) =>
  }

  /** The ledger: over any history, with any clocks, failures and lost queries, the backlog is
      what it was, plus what entered, minus what was cleared. */
  lemma {:induction false} BacklogLedger(st: Store, key: KeyFunction, es: seq<Event>, corpus: seq<string>)
    requires WalletsValid(st.wallets) && AllowedAll(st, key, es)
    ensures |Backlog(ExecAll(st, key, es), corpus)|
            == |Backlog(st, corpus)| + TotalEntered(st, key, es, corpus) - TotalCleared(st, key, es, corpus)
  {
    if es != [] {
      var n := |es| - 1;
      BacklogLedger(st, key, es[..n], corpus);
      HistoryKeepsWallets(st, key, es[..n]);
      EventMovesBacklog(ExecAll(st, key, es[..n]), key, es[n], corpus);
    }
  }
}
