/** When the slice and Step 5b agree on a wallet: what a history says about its rows. */
module ScanAgreement {
  import opened Basics
  import opened Identity
  import opened ScanStore
  import opened ScanRuns
  import opened ScanHistory
  import opened ScanLedger

  /** The event is a run that writes a row for the wallet. */
  predicate Writes(st: Store, key: KeyFunction, e: Event, a: string) {
    e.Run? && Serves(st, key, SliceBy(st, e), e.failing, a)
  }

  function WritesTest(st: Store, key: KeyFunction, a: string): EventTest {
    (before, e) => Writes(ExecAll(st, key, before), key, e, a)
  }

  // ---- the current key ------------------------------------------------------------------------

  /** The wallet has a row under its current key. */
  predicate InTable(st: Store, key: KeyFunction, a: string) {
    a in st.wallets && Keyed(st, key, a)
  }

  /** One event: the current key is in the table afterwards exactly when this run wrote it, or it
      was there and the wallet did not trade. */
  lemma InTableStep(st: Store, key: KeyFunction, e: Event, a: string)
    requires Revealing(key) && Valid(st) && Honest(st, key) && Allowed(st, e)
    ensures InTable(Exec(st, key, e), key, a) <==> Writes(st, key, e, a) || (InTable(st, key, a) && !Frees(e, a))
  {
    match e
    case TradesArrive(rows) =>
      if a in st.wallets {
        UpToDateUnlessOwnTrade(st, key, rows, a);
      }
    case WalletAdded(b, id) =>
      if a == b {
        assert forall k :: !Tabled(st.decisions, id, k);
      }
    case Run(_, _, _, _, _) =>
      RunDecidesInTable(st, key, e, a);
  }

  lemma RunDecidesInTable(st: Store, key: KeyFunction, e: Event, a: string)
    requires WalletsValid(st.wallets) && e.Run?
    ensures InTable(Exec(st, key, e), key, a) <==> Writes(st, key, e, a) || InTable(st, key, a)
  {
    var slice := SliceBy(st, e);
    SliceUnderFits(st, e.corpus, e.cap, e.lost);
    if a in st.wallets {
      RunDecidesKeyed(st, key, slice, e.cap, e.now, e.failing, a);
    } else {
      SliceAppends(st, key, slice, e.cap, e.now, e.failing);
    }
  }

  /** Some run has written a row for the wallet, and no own trade has arrived since. */
  ghost predicate WrittenSince(st: Store, key: KeyFunction, es: seq<Event>, a: string) {
    SomeSince(WritesTest(st, key, a), es, a)
  }

  /** Over any history, the current key of a wallet is in the table exactly then. */
  lemma {:induction false} InTableExactlyWhen(st: Store, key: KeyFunction, es: seq<Event>, a: string)
    requires Revealing(key) && Valid(st) && Honest(st, key) && AllowedAll(st, key, es) && !InTable(st, key, a)
    ensures InTable(ExecAll(st, key, es), key, a) <==> WrittenSince(st, key, es, a)
  {
    if es != [] {
      var n := |es| - 1;
      InTableExactlyWhen(st, key, es[..n], a);
      HistoryKeepsInvariants(st, key, es[..n]);
      InTableStep(ExecAll(st, key, es[..n]), key, es[n], a);
      SomeSinceStep(WritesTest(st, key, a), es, a);
    }
  }

  // ---- rows and clocks ------------------------------------------------------------------------

  /** Some run of the history wrote a row for the wallet. */
  ghost predicate Written(st: Store, key: KeyFunction, es: seq<Event>, a: string) {
    es != [] &&
      var n := |es| - 1;
      Written(st, key, es[..n], a) || Writes(ExecAll(st, key, es[..n]), key, es[n], a)
  }

  /** Every run that wrote a row for the wallet had its clock before this instant. */
  ghost predicate AllBefore(st: Store, key: KeyFunction, es: seq<Event>, a: string, at: int) {
    es != [] ==>
      var n := |es| - 1;
      && AllBefore(st, key, es[..n], a, at)
      && (Writes(ExecAll(st, key, es[..n]), key, es[n], a) ==> es[n].now < at)
  }

  predicate Scored(st: Store, a: string) {
    a in st.wallets && HasPrior(st.decisions, st.wallets[a])
  }

  lemma ScoredStep(st: Store, key: KeyFunction, e: Event, a: string)
    requires WalletsValid(st.wallets) && Allowed(st, e)
    ensures Scored(Exec(st, key, e), a) <==> Scored(st, a) || Writes(st, key, e, a)
  {
    match e
    case TradesArrive(_) =>
    case WalletAdded(b, id) => NewWalletKeepsState(st, b, id, a);
    case Run(_, _, _, _, _) =>
      SliceUnderFits(st, e.corpus, e.cap, e.lost);
      RunDecidesState(st, key, SliceBy(st, e), e.cap, e.now, e.failing, a);
  }

  predicate NewerThanAll(st: Store, a: string, t: Trade) {
    a in st.wallets ==> NewerThanRows(t, st.decisions, st.wallets[a])
  }

  lemma NewerStep(st: Store, key: KeyFunction, e: Event, a: string, t: Trade)
    requires WalletsValid(st.wallets) && Allowed(st, e)
    ensures NewerThanAll(Exec(st, key, e), a, t) <==> NewerThanAll(st, a, t) && (Writes(st, key, e, a) ==> e.now < t.at)
  {
    if e.Run? && a in st.wallets {
      SliceUnderFits(st, e.corpus, e.cap, e.lost);
      SliceExtends(st, key, SliceBy(st, e), e.cap, e.now, e.failing, a);
      NewerAfter(st, Exec(st, key, e), st.wallets[a], e.now, Writes(st, key, e, a), t);
    }
  }

  /** After a history that starts without decisions, a wallet has rows exactly when some run
      wrote one, and a trade is newer than all of them exactly when it is later than the clock
      of each such run. */
  lemma {:induction false} RowsByHistory(st: Store, key: KeyFunction, es: seq<Event>, a: string, t: Trade)
    requires WalletsValid(st.wallets) && st.decisions == [] && AllowedAll(st, key, es)
    ensures Scored(ExecAll(st, key, es), a) <==> Written(st, key, es, a)
    ensures NewerThanAll(ExecAll(st, key, es), a, t) <==> AllBefore(st, key, es, a, t.at)
  {
    if es != [] {
      var n := |es| - 1;
      var s := ExecAll(st, key, es[..n]);
      RowsByHistory(st, key, es[..n], a, t);
      HistoryKeepsWallets(st, key, es[..n]);
      ScoredStep(s, key, es[n], a);
      NewerStep(s, key, es[n], a, t);
    }
  }

  /** No trade recorded under exactly this address is newer than all its rows. */
  ghost predicate NoneNewer(s: Store, a: string) {
    forall t :: t in s.trades && t.trader == Some(a) ==> !NewerThanAll(s, a, t)
  }

  lemma StateByTrades(s: Store, a: string)
    ensures StateOf(s, a) == AlreadyScored <==> Scored(s, a) && NoneNewer(s, a)
  {
    if Scored(s, a) && Outdated(s, a) {
      var j :| 0 <= j < |s.trades| && s.trades[j].trader == Some(a)
               && NewerThanRows(s.trades[j], s.decisions, s.wallets[a]);
      assert s.trades[j] in s.trades && NewerThanAll(s, a, s.trades[j]);
    }
  }

  /** Each of these trades has an earlier or equal clock of a run that wrote a row. */
  ghost predicate AllMet(st: Store, key: KeyFunction, es: seq<Event>, a: string, trades: seq<Trade>) {
    forall t :: t in trades && t.trader == Some(a) ==> !AllBefore(st, key, es, a, t.at)
  }

  lemma NoneNewerByHistory(st: Store, key: KeyFunction, es: seq<Event>, a: string)
    requires WalletsValid(st.wallets) && st.decisions == [] && AllowedAll(st, key, es)
    ensures NoneNewer(ExecAll(st, key, es), a) <==> AllMet(st, key, es, a, ExecAll(st, key, es).trades)
  {
    forall t ensures NewerThanAll(ExecAll(st, key, es), a, t) <==> AllBefore(st, key, es, a, t.at) {
      RowsByHistory(st, key, es, a, t);
    }
  }

  // ---- agreement ------------------------------------------------------------------------------

  /** Step 5b has a row to write for the wallet. */
  predicate HasWork(st: Store, key: KeyFunction, a: string) {
    a in st.wallets && OwnTrades(st.trades, a) != [] && !Keyed(st, key, a)
  }

  /** The slice sends the wallet to the first pass exactly when Step 5b has a row to write. */
  predicate Agree(st: Store, key: KeyFunction, a: string) {
    StateOf(st, a) != AlreadyScored <==> HasWork(st, key, a)
  }

  /** Runs have written rows for the wallet, it has traded since the last of them, and yet each
      of its trades has an earlier or equal clock of such a run. */
  ghost predicate Missed(st: Store, key: KeyFunction, es: seq<Event>, a: string) {
    && Written(st, key, es, a) && !WrittenSince(st, key, es, a)
    && AllMet(st, key, es, a, ExecAll(st, key, es).trades)
  }

  lemma StateByHistory(st: Store, key: KeyFunction, es: seq<Event>, a: string)
    requires WalletsValid(st.wallets) && st.decisions == [] && AllowedAll(st, key, es)
    ensures StateOf(ExecAll(st, key, es), a) == AlreadyScored
            <==> Written(st, key, es, a) && AllMet(st, key, es, a, ExecAll(st, key, es).trades)
  {
    var any := Trade(None, 0, "", 0.0, "", false);
    RowsByHistory(st, key, es, a, any);
    NoneNewerByHistory(st, key, es, a);
    StateByTrades(ExecAll(st, key, es), a);
  }

  /** A wallet without trades has no rows. */
  lemma RowsNeedTrades(s: Store, key: KeyFunction, a: string)
    requires Honest(s, key) && OwnTrades(s.trades, a) == []
    ensures !Scored(s, a)
  {
    if a in s.wallets {
      forall i | 0 <= i < |s.decisions| ensures !IsV1(s.decisions[i], s.wallets[a]) {
        assert HonestRow(s, key, a, i);
      }
    }
  }

  lemma AgreeMeans(s: Store, key: KeyFunction, a: string)
    requires Honest(s, key)
    ensures Agree(s, key, a)
            <==> && a in s.wallets && OwnTrades(s.trades, a) != [] && !Stuck(s, key, a)
                 && !(StateOf(s, a) == AlreadyScored && !InTable(s, key, a))
  {
    if OwnTrades(s.trades, a) == [] {
      RowsNeedTrades(s, key, a);
    } else if a in s.wallets && Keyed(s, key, a) {
      assert HasPrior(s.decisions, s.wallets[a]);
    }
  }

  /** After any history that starts without decisions, with any clocks, failures, corpora and lost
      queries, the slice and Step 5b agree on a canonical wallet exactly when it has a row and a
      trade and is neither frozen (its row was written behind a newer trade, and it has not
      traded since) nor missed (it has traded since, but only up to the clocks of its rows). */
  lemma AgreeExactlyWhen(st: Store, key: KeyFunction, es: seq<Event>, a: string)
    requires Revealing(key) && WalletsValid(st.wallets) && st.decisions == [] && AllowedAll(st, key, es)
    requires IsCanonical(a)
    ensures var s := ExecAll(st, key, es);
            Agree(s, key, a)
            <==> && a in s.wallets && OwnTrades(s.trades, a) != []
                 && !Frozen(st, key, es, a) && !Missed(st, key, es, a)
  {
    HistoryKeepsInvariants(st, key, es);
    StuckExactlyWhen(st, key, es, a);
    InTableExactlyWhen(st, key, es, a);
    StateByHistory(st, key, es, a);
    AgreeMeans(ExecAll(st, key, es), key, a);
  }
}
