/** What a resolution backfill makes of a trade, by the market's outcomes and the trade alone. */
module ResolutionOutcome {
  import opened Basics
  import opened Resolution
  import opened ResolutionRun
  import opened ResolutionReplay
  import Identity

  // ---- one trade ------------------------------------------------------------------------------

  /** core is what is left of a text without its surrounding white space; nothing of a missing one. */
  ghost predicate Core(s: Option<string>, core: string) {
    if s.None? then core == "" else Identity.Trimmed(s.value, core, Identity.PythonStrip)
  }

  lemma StrippedIsCore(s: Option<string>, core: string)
    ensures Stripped(s) == core <==> Core(s, core)
  {
    if s.Some? {
      Identity.StripExactlyWhen(s.value, core, Identity.PythonStrip);
    }
  }

  /** The outcome has this label and names the token w. */
  ghost predicate Labels(o: Outcome, wanted: string, w: string) {
    o.token == Some(w) && w != "" && Core(o.outcomeLabel, wanted)
  }

  /** The token w wins the market: it is stored as the winner, or nothing is stored and it is the
      one distinct token among the outcomes with the market's label. */
  ghost predicate Wins(m: Market, outcomes: seq<Outcome>, w: string) {
    if m.winningToken.Some? && m.winningToken.value != "" then m.winningToken.value == w
    else exists wanted :: WinsByLabel(m, outcomes, wanted, w)
  }

  ghost predicate WinsByLabel(m: Market, outcomes: seq<Outcome>, wanted: string, w: string) {
    && wanted != "" && Core(m.resolutionOutcome, wanted)
    && (exists o :: o in outcomes && Labels(o, wanted, w))
    && (forall o, u :: o in outcomes && Labels(o, wanted, u) ==> u == w)
  }

  lemma LabelsAreNames(o: Outcome, wanted: string, w: string)
    ensures Labels(o, wanted, w) <==> Names(o, wanted, w)
  {
    StrippedIsCore(o.outcomeLabel, wanted);
  }

  lemma ByLabelExactlyWhen(m: Market, outcomes: seq<Outcome>, wanted: string, w: string)
    ensures WinsByLabel(m, outcomes, wanted, w) <==> LabelOf(m) == Some(wanted) && OnlyToken(outcomes, wanted, w)
  {
    StrippedIsCore(m.resolutionOutcome, wanted);
    forall o, u ensures Labels(o, wanted, u) <==> Names(o, wanted, u) {
      LabelsAreNames(o, wanted, u);
    }
  }

  lemma WinsExactlyWhen(m: Market, outcomes: seq<Outcome>, w: string)
    ensures WinnerOf(m, outcomes) == Some(w) <==> Wins(m, outcomes, w)
  {
    WinnerExactlyWhen(m, outcomes, w);
    forall wanted ensures WinsByLabel(m, outcomes, wanted, w)
                          <==> LabelOf(m) == Some(wanted) && OnlyToken(outcomes, wanted, w)
    {
      ByLabelExactlyWhen(m, outcomes, wanted, w);
    }
  }

  /** The trade's token, without surrounding white space, is w; or it is another one. */
  ghost predicate OnToken(t: Trade, w: string) {
    w != "" && Core(t.token, w)
  }

  ghost predicate OnOther(t: Trade, w: string) {
    exists u :: u != "" && u != w && Core(t.token, u)
  }

  lemma TokenOf(t: Trade, w: string)
    ensures OnToken(t, w) <==> Stripped(t.token) != "" && Stripped(t.token) == w
    ensures OnOther(t, w) <==> Stripped(t.token) != "" && Stripped(t.token) != w
    ensures Core(t.token, "") <==> Stripped(t.token) == ""
  {
    StrippedIsCore(t.token, w);
    StrippedIsCore(t.token, "");
    StrippedIsCore(t.token, Stripped(t.token));
    forall u | Core(t.token, u) ensures u == Stripped(t.token) {
      StrippedIsCore(t.token, u);
    }
  }

  /** Two outcomes hold the token. */
  ghost predicate Shared(outcomes: seq<Outcome>, w: string) {
    exists i, j :: 0 <= i < j < |outcomes| && outcomes[i].token == outcomes[j].token == Some(w)
  }

  lemma SharedIsHeldTwice(outcomes: seq<Outcome>, w: string)
    requires w != ""
    ensures Shared(outcomes, w) <==> TwoHold(outcomes, w)
  {
    if TwoHold(outcomes, w) {
      var i, j :| 0 <= i < j < |outcomes| && Holds(outcomes[i], w) && Holds(outcomes[j], w);
      assert outcomes[i].token == outcomes[j].token == Some(w);
    }
    if Shared(outcomes, w) {
      var i, j :| 0 <= i < j < |outcomes| && outcomes[i].token == outcomes[j].token == Some(w);
      assert Holds(outcomes[i], w) && Holds(outcomes[j], w);
    }
  }

  lemma WinnerIsText(m: Market, outcomes: seq<Outcome>, w: string)
    requires Wins(m, outcomes, w)
    ensures w != ""
  {
  }

  predicate Priced(t: Trade) {
    t.price.Some? && t.quantity.Some?
  }

  /** What a share pays: one on the winner, nothing on another token. */
  ghost function Payout(t: Trade, w: string): real {
    if OnToken(t, w) then 1.0 else 0.0
  }

  /** The settlement of a trade when w wins; shared says that two outcomes hold w. */
  ghost predicate SettledFor(s: Settlement, t: Trade, w: string, shared: bool) {
    && s.winningToken == Some(w)
    && (s.status == AmbiguousMarket <==> shared)
    && (s.status == Won <==> !shared && OnToken(t, w))
    && (s.status == Lost <==> !shared && OnOther(t, w))
    && (s.status == Unknown <==> !shared && Core(t.token, ""))
    && (s.isWinningTrade == Some(true) <==> s.status == Won)
    && (s.isWinningTrade == Some(false) <==> s.status == Lost)
    && (s.realizedPnl.Some? <==> !shared && Priced(t) && !Core(t.token, ""))
    && (s.realizedPnl.Some? ==> s.realizedPnl.value == (Payout(t, w) - t.price.value) * t.quantity.value)
  }

  lemma PayoutTimesQuantity(p: real, q: real)
    ensures (0.0 - p) * q == -p * q
  {
  }

  /** The plan of a resolved market settles every selected trade by its own token, exactly when
      the market has a winner. */
  lemma PlanSettlesFor(t: Trade, m: Market, outcomes: seq<Outcome>)
    requires m.resolved
    ensures var p := PlanOf(m, outcomes);
            var plan := PlanFor(t, p.truth, p.app);
            && (plan.Some? <==> exists w :: Wins(m, outcomes, w))
            && forall w :: Wins(m, outcomes, w) ==> plan.Some? && SettledFor(plan.value, t, w, Shared(outcomes, w))
  {
    var p := PlanOf(m, outcomes);
    AmbiguousExactlyWhen(p.truth, outcomes);
    if WinnerOf(m, outcomes).Some? {
      var winner := WinnerOf(m, outcomes).value;
      WinsExactlyWhen(m, outcomes, winner);
      WinnerIsText(m, outcomes, winner);
      SharedIsHeldTwice(outcomes, winner);
      TokenOf(t, winner);
      if Priced(t) {
        PayoutTimesQuantity(t.price.value, t.quantity.value);
      }
    }
    forall w | Wins(m, outcomes, w) ensures WinnerOf(m, outcomes) == Some(w) {
      WinsExactlyWhen(m, outcomes, w);
    }
  }

  // ---- a whole run ----------------------------------------------------------------------------

  /** The row settles the trade: it names its market, was planned, and the market has a winner. */
  ghost predicate Reaches(db: Db, m: Market, failing: set<string>, t: Trade) {
    && m.id !in failing && m.sourceId == t.marketSourceId && t.token.Some?
    && exists w :: Wins(m, OutcomesOf(db.outcomes, m.id), w)
  }

  /** The k-th row is the first that settles the trade. */
  ghost predicate FirstToReach(db: Db, rows: seq<Market>, failing: set<string>, t: Trade, k: nat)
    requires k < |rows|
  {
    Reaches(db, rows[k], failing, t) && forall j :: 0 <= j < k ==> !Reaches(db, rows[j], failing, t)
  }

  lemma UpdatedTradeIs(t: Trade, m: Market, outcomes: seq<Outcome>)
    requires m.resolved
    ensures var after := UpdatedTrade(t, m, PlanOf(m, outcomes));
            && after.(settlement := t.settlement) == t
            && (after != t ==> t.settlement.status.Unresolved?)
            && (t.settlement.status.Unresolved? && t.marketSourceId == m.sourceId && t.token.Some? ==>
                  && ((exists w :: Wins(m, outcomes, w)) <==> !after.settlement.status.Unresolved?)
                  && forall w :: Wins(m, outcomes, w) ==> SettledFor(after.settlement, t, w, Shared(outcomes, w)))
            && (!(t.marketSourceId == m.sourceId && t.token.Some? && exists w :: Wins(m, outcomes, w)) ==> after == t)
  {
    PlanSettlesFor(t, m, outcomes);
    PlansAreSafe(t, PlanOf(m, outcomes).truth, outcomes);
  }

  /** What a run that settles has made of one of its trades: settled by the first row that reaches
      it, untouched without one, and never settled twice. */
  ghost predicate TradeAfter(db: Db, rows: seq<Market>, failing: set<string>, before: Trade, after: Trade) {
    && after.(settlement := before.settlement) == before
    && (!before.settlement.status.Unresolved? ==> after == before)
    && (before.settlement.status.Unresolved? ==>
          && (after.settlement.status.Unresolved? ==>
                after == before && forall k :: 0 <= k < |rows| ==> !Reaches(db, rows[k], failing, before))
          && (!after.settlement.status.Unresolved? ==>
                exists k :: 0 <= k < |rows| && FirstToReach(db, rows, failing, before, k)
                            && SettledBy(db, rows[k], before, after.settlement)))
  }

  /** The settlement is the one for the winner of this row. */
  ghost predicate SettledBy(db: Db, m: Market, t: Trade, s: Settlement) {
    var outcomes := OutcomesOf(db.outcomes, m.id);
    forall w :: Wins(m, outcomes, w) ==> SettledFor(s, t, w, Shared(outcomes, w))
  }

  lemma TradeStep(db: Db, rows: seq<Market>, failing: set<string>, m: Market, before: Trade, now: Trade)
    requires m.resolved && TradeAfter(db, rows, failing, before, now)
    ensures TradeAfter(db, rows + [m], failing, before,
                       if m.id in failing then now else UpdatedTrade(now, m, PlanOf(m, OutcomesOf(db.outcomes, m.id))))
  {
    var outcomes, all := OutcomesOf(db.outcomes, m.id), rows + [m];
    UpdatedTradeIs(now, m, outcomes);
    if before.settlement.status.Unresolved? {
      if !now.settlement.status.Unresolved? {
        var k :| 0 <= k < |rows| && FirstToReach(db, rows, failing, before, k)
                 && SettledBy(db, rows[k], before, now.settlement);
        assert all[k] == rows[k];
        assert FirstToReach(db, all, failing, before, k);
      } else {
        assert all[|rows|] == m;
        assert Reaches(db, m, failing, before) ==> FirstToReach(db, all, failing, before, |rows|);
      }
    }
  }

  /** An applied run settles a trade exactly when some row of it names the trade's market, could be
      planned and has a winner; the first such row decides. The trade is then won exactly when
      its token is that winner and lost exactly when it has another, and a priced trade realizes
      (payout - price) * quantity. Nothing else about a trade changes. */
  lemma {:induction false} RunSettlesTrades(db: Db, rows: seq<Market>, failing: set<string>, i: nat)
    requires i < |db.trades| && forall m :: m in rows ==> m.resolved
    ensures var after := RunAll(db, rows, failing, false).trades;
            |after| == |db.trades| && TradeAfter(db, rows, failing, db.trades[i], after[i])
  {
    if rows != [] {
      var n := |rows| - 1;
      assert rows == rows[..n] + [rows[n]] && rows[n] in rows;
      RunSettlesTrades(db, rows[..n], failing, i);
      var before := RunAll(db, rows[..n], failing, false);
      PlansStay(db, rows[..n], failing, false, rows[n].id);
      TradeStep(db, rows[..n], failing, rows[n], db.trades[i], before.trades[i]);
    }
  }

  /** A run that skips trades changes none. */
  lemma {:induction false} SkippingKeepsTrades(db: Db, rows: seq<Market>, failing: set<string>)
    ensures RunAll(db, rows, failing, true).trades == db.trades
  {
    if rows != [] {
      SkippingKeepsTrades(db, rows[..|rows| - 1], failing);
    }
  }

  // ---- what the report counts -----------------------------------------------------------------

  /** Unsettled trades of the market with this token, and with another one. */
  ghost function CountOn(trades: seq<Trade>, m: Market, w: string): nat {
    if trades == [] then 0
    else
      var t := trades[|trades| - 1];
      CountOn(trades[..|trades| - 1], m, w)
      + (if t.marketSourceId == m.sourceId && t.settlement.status.Unresolved? && OnToken(t, w) then 1 else 0)
  }

  ghost function CountOff(trades: seq<Trade>, m: Market, w: string): nat {
    if trades == [] then 0
    else
      var t := trades[|trades| - 1];
      CountOff(trades[..|trades| - 1], m, w)
      + (if t.marketSourceId == m.sourceId && t.settlement.status.Unresolved? && OnOther(t, w) then 1 else 0)
  }

  lemma StatusSnoc(init: seq<Trade>, t: Trade, p: Plan, status: Status)
    ensures CountStatus(init + [t], p, status)
            == CountStatus(init, p, status)
               + (if PlanFor(t, p.truth, p.app).Some? && PlanFor(t, p.truth, p.app).value.status == status then 1 else 0)
  {
    assert (init + [t])[..|init|] == init;
  }

  /** For a market with an unshared winner the report counts as won exactly the unsettled trades on
      the winner, and as lost exactly those on another token. */
  lemma {:induction false} WonAreOnWinner(trades: seq<Trade>, m: Market, outcomes: seq<Outcome>, w: string)
    requires m.resolved && Wins(m, outcomes, w) && !Shared(outcomes, w)
    ensures CountStatus(UnsettledTrades(trades, m), PlanOf(m, outcomes), Won) == CountOn(trades, m, w)
    ensures CountStatus(UnsettledTrades(trades, m), PlanOf(m, outcomes), Lost) == CountOff(trades, m, w)
  {
    if trades != [] {
      var n := |trades| - 1;
      var p, t := PlanOf(m, outcomes), trades[n];
      WonAreOnWinner(trades[..n], m, outcomes, w);
      if Unsettled(t, m) {
        PlanSettlesFor(t, m, outcomes);
        StatusSnoc(UnsettledTrades(trades[..n], m), t, p, Won);
        StatusSnoc(UnsettledTrades(trades[..n], m), t, p, Lost);
        assert UnsettledTrades(trades, m) == UnsettledTrades(trades[..n], m) + [t];
      } else {
        assert UnsettledTrades(trades, m) == UnsettledTrades(trades[..n], m);
        NoTokenIsNone(t, w);
      }
    }
  }

  lemma NoTokenIsNone(t: Trade, w: string)
    ensures t.token.None? ==> !OnToken(t, w) && !OnOther(t, w)
  {
    TokenOf(t, w);
  }

  /** For a market without a winner, or with a shared one, it counts none as won or lost. */
  lemma {:induction false} NoneWonOtherwise(trades: seq<Trade>, m: Market, outcomes: seq<Outcome>)
    requires m.resolved && forall w :: Wins(m, outcomes, w) ==> Shared(outcomes, w)
    ensures CountStatus(UnsettledTrades(trades, m), PlanOf(m, outcomes), Won) == 0
    ensures CountStatus(UnsettledTrades(trades, m), PlanOf(m, outcomes), Lost) == 0
  {
    if trades != [] {
      var n := |trades| - 1;
      var p, t := PlanOf(m, outcomes), trades[n];
      NoneWonOtherwise(trades[..n], m, outcomes);
      if Unsettled(t, m) {
        PlanSettlesFor(t, m, outcomes);
        StatusSnoc(UnsettledTrades(trades[..n], m), t, p, Won);
        StatusSnoc(UnsettledTrades(trades[..n], m), t, p, Lost);
        assert UnsettledTrades(trades, m) == UnsettledTrades(trades[..n], m) + [t];
      } else {
        assert UnsettledTrades(trades, m) == UnsettledTrades(trades[..n], m);
      }
    }
  }

  /** Unsettled trades of the market without a token. */
  ghost function Tokenless(trades: seq<Trade>, m: Market): set<nat> {
    set i: nat | i < |trades| && trades[i].marketSourceId == m.sourceId && trades[i].token == None
                 && trades[i].settlement.status == Unresolved
  }

  lemma TokenlessSnoc(trades: seq<Trade>, m: Market, n: nat)
    requires |trades| == n + 1
    ensures |Tokenless(trades, m)|
            == |Tokenless(trades[..n], m)|
               + (if trades[n].marketSourceId == m.sourceId && trades[n].token == None
                     && trades[n].settlement.status == Unresolved then 1 else 0)
  {
    var last := if n in Tokenless(trades, m) then {n} else {};
    assert Tokenless(trades, m) == Tokenless(trades[..n], m) + last;
  }

  /** Trades without a token are counted apart. */
  lemma {:induction false} MissingAreTokenless(trades: seq<Trade>, m: Market)
    ensures MissingTokens(trades, m) == |Tokenless(trades, m)|
  {
    if trades != [] {
      MissingAreTokenless(trades[..|trades| - 1], m);
      TokenlessSnoc(trades, m, |trades| - 1);
    }
  }

  // ---- markets and outcomes -------------------------------------------------------------------

  /** What an applied plan makes of its market's row. */
  ghost predicate MarketAfter(before: Market, after: Market, outcomes: seq<Outcome>) {
    && after.id == before.id && after.sourceId == before.sourceId
    && (forall w :: Wins(before, outcomes, w) && Shared(outcomes, w) ==> after == before)
    && (forall w :: Wins(before, outcomes, w) && !Shared(outcomes, w) ==>
          && after.resolved && after.winningToken == Some(w)
          && (Core(before.resolutionOutcome, "") ==> after.resolutionOutcome == before.resolutionOutcome)
          && (forall text :: text != "" && Core(before.resolutionOutcome, text) ==> after.resolutionOutcome == Some(text)))
    && ((forall w :: !Wins(before, outcomes, w)) ==>
          !after.resolved && after.winningToken == None && after.resolutionOutcome == before.resolutionOutcome)
  }

  lemma UpdatedMarketIs(m: Market, outcomes: seq<Outcome>)
    requires m.resolved
    ensures MarketAfter(m, UpdatedMarket(m, PlanOf(m, outcomes)), outcomes)
  {
    AmbiguousExactlyWhen(PlanOf(m, outcomes).truth, outcomes);
    StrippedIsCore(m.resolutionOutcome, "");
    forall text | Core(m.resolutionOutcome, text) ensures Stripped(m.resolutionOutcome) == text {
      StrippedIsCore(m.resolutionOutcome, text);
    }
    if WinnerOf(m, outcomes).Some? {
      WinsExactlyWhen(m, outcomes, WinnerOf(m, outcomes).value);
      SharedIsHeldTwice(outcomes, WinnerOf(m, outcomes).value);
    }
    forall w | Wins(m, outcomes, w) ensures WinnerOf(m, outcomes) == Some(w) {
      WinsExactlyWhen(m, outcomes, w);
    }
  }

  /** After a run over all resolved markets each selected market is as its winner demands. */
  lemma RunUpdatesMarkets(db: Db, skipTrades: bool, k: nat, x: Market)
    requires Keyed(db) && k < |Selected(db.markets)|
    requires x in RunAll(db, Selected(db.markets), {}, skipTrades).markets && x.id == Selected(db.markets)[k].id
    ensures MarketAfter(Selected(db.markets)[k], x, OutcomesOf(db.outcomes, x.id))
  {
    var rows := Selected(db.markets);
    SelectedAre(db.markets);
    SelectedDistinct(db.markets);
    assert rows[k] in rows;
    RunMakesDone(db, rows, skipTrades, k);
    UpdatedMarketIs(rows[k], OutcomesOf(db.outcomes, x.id));
  }

  /** A flag says whether the outcome holds the winning token. */
  ghost predicate FlaggedFor(o: StoredOutcome, outcomes: seq<Outcome>, w: string) {
    o.row.token.Some? && o.row.token != Some("") ==> o.isWinner == Some(o.row.token == Some(w))
  }

  lemma OutcomesOfHas(stored: seq<StoredOutcome>, market: string, o: StoredOutcome)
    requires o in stored && o.market == market
    ensures o.row in OutcomesOf(stored, market)
  {
    var n := |stored| - 1;
    if o != stored[n] {
      var i :| 0 <= i < |stored| && stored[i] == o;
      assert stored[..n][i] == o;
      OutcomesOfHas(stored[..n], market, o);
    }
  }

  lemma {:induction false} OutcomesOfDistinct(stored: seq<StoredOutcome>, market: string)
    requires forall i, j :: 0 <= i < j < |stored| ==> stored[i].row.id != stored[j].row.id
    ensures DistinctOutcomes(OutcomesOf(stored, market))
  {
    if stored != [] {
      var n := |stored| - 1;
      OutcomesOfDistinct(stored[..n], market);
      forall r | r in OutcomesOf(stored[..n], market) ensures r.id != stored[n].row.id {
        var s :| s in stored[..n] && s.market == market && s.row == r;
        var i :| 0 <= i < n && stored[..n][i] == s;
      }
    }
  }

  lemma TokenIsHeld(o: Outcome, w: string)
    requires w != ""
    ensures Holds(o, w) <==> o.token == Some(w)
  {
  }

  /** After a run over all resolved markets, each outcome with a token of a market whose unshared
      winner is held by one of its outcomes is flagged by that winner. */
  lemma RunFlagsOutcomes(db: Db, skipTrades: bool, k: nat, o: StoredOutcome, w: string)
    requires Keyed(db) && k < |Selected(db.markets)|
    requires var m := Selected(db.markets)[k];
             var outcomes := OutcomesOf(db.outcomes, m.id);
             && Wins(m, outcomes, w) && !Shared(outcomes, w)
             && (exists h :: h in outcomes && h.token == Some(w))
             && o.market == m.id
    requires o in RunAll(db, Selected(db.markets), {}, skipTrades).outcomes
    ensures FlaggedFor(o, OutcomesOf(db.outcomes, o.market), w)
  {
    var rows := Selected(db.markets);
    var m, after := rows[k], RunAll(db, rows, {}, skipTrades);
    var outcomes := OutcomesOf(db.outcomes, m.id);
    SelectedAre(db.markets);
    SelectedDistinct(db.markets);
    RunMakesDone(db, rows, skipTrades, k);
    PlansStay(db, rows, {}, skipTrades, m.id);
    OutcomesOfHas(after.outcomes, m.id, o);
    OutcomesOfDistinct(db.outcomes, m.id);
    PlanFlags(m, outcomes, o.row, w);
  }

  /** The plan's flags, by the winner. */
  lemma PlanFlags(m: Market, outcomes: seq<Outcome>, o: Outcome, w: string)
    requires m.resolved && DistinctOutcomes(outcomes) && o in outcomes
    requires Wins(m, outcomes, w) && !Shared(outcomes, w)
    requires exists h :: h in outcomes && h.token == Some(w)
    ensures var app := PlanOf(m, outcomes).app;
            && app.resolved && !app.ambiguous
            && (NonEmpty(o.token).Some? ==> o.id in app.flags && app.flags[o.id] == (o.token == Some(w)))
  {
    WinsExactlyWhen(m, outcomes, w);
    WinnerIsText(m, outcomes, w);
    AmbiguousExactlyWhen(PlanOf(m, outcomes).truth, outcomes);
    var h :| h in outcomes && h.token == Some(w);
    TokenIsHeld(h, w);
    assert h.id in Matched(outcomes, w);
    MatchedCounts(outcomes, w);
    MarkedWinnerIsUnique(PlanOf(m, outcomes).truth, outcomes, o);
    TokenIsHeld(o, w);
  }

  ghost predicate Held(outcomes: seq<Outcome>, w: string) {
    exists o :: o in outcomes && o.token == Some(w)
  }

  lemma HeldIsMatched(outcomes: seq<Outcome>, w: string)
    requires w != ""
    ensures Held(outcomes, w) <==> |Matched(outcomes, w)| > 0
  {
    if Held(outcomes, w) {
      var o :| o in outcomes && o.token == Some(w);
      assert Holds(o, w) && o.id in Matched(outcomes, w);
    }
    if |Matched(outcomes, w)| > 0 {
      assert Matched(outcomes, w)[0] in Matched(outcomes, w);
    }
  }

  /** The class that the report gives a resolved market: ambiguous when several outcomes hold its
      winner, planned when one does, and without a match otherwise. */
  lemma ClassExactlyWhen(m: Market, outcomes: seq<Outcome>)
    requires m.resolved
    ensures var c := ClassOf(PlanOf(m, outcomes));
            && (c == Class.Ambiguous <==> exists w :: Wins(m, outcomes, w) && Shared(outcomes, w))
            && (c == Planned <==> exists w :: Wins(m, outcomes, w) && !Shared(outcomes, w) && Held(outcomes, w))
            && c != NotResolved
  {
    AmbiguousExactlyWhen(PlanOf(m, outcomes).truth, outcomes);
    if WinnerOf(m, outcomes).Some? {
      var winner := WinnerOf(m, outcomes).value;
      WinsExactlyWhen(m, outcomes, winner);
      SharedIsHeldTwice(outcomes, winner);
      HeldIsMatched(outcomes, winner);
    }
    forall w | Wins(m, outcomes, w) ensures WinnerOf(m, outcomes) == Some(w) {
      WinsExactlyWhen(m, outcomes, w);
    }
  }
}
