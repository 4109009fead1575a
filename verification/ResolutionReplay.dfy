/** Re-running the resolution backfill: an applied run leaves nothing for the next one. */
module ResolutionReplay {
  import opened Resolution
  import opened ResolutionRun
  import Identity

  /** _fetch_resolved_markets without a limit. */
  function Selected(markets: seq<Market>): seq<Market> {
    if markets == [] then []
    else
      var last := markets[|markets| - 1];
      Selected(markets[..|markets| - 1]) + (if last.resolved then [last] else [])
  }

  lemma {:induction false} SelectedAre(markets: seq<Market>)
    ensures forall m :: m in Selected(markets) <==> m in markets && m.resolved
  {
    if markets != [] {
      var n := |markets| - 1;
      SelectedAre(markets[..n]);
      assert markets == markets[..n] + [markets[n]];
    }
  }

  function CurrentPlan(db: Db, m: Market): Plan {
    PlanOf(m, OutcomesOf(db.outcomes, m.id))
  }

  /** The plan of the row m, as selected, is in place and would change nothing again. */
  ghost predicate Done(db: Db, m: Market, p: Plan, skipTrades: bool) {
    && p == CurrentPlan(db, m)
    && (forall x :: x in db.markets && x.id == m.id ==> x == UpdatedMarket(m, p))
    && (forall o :: o in db.outcomes ==> UpdatedOutcome(o, p) == o)
    && (!skipTrades ==> forall t :: t in db.trades ==> UpdatedTrade(t, m, p) == t)
  }

  lemma {:induction false} FlagsBelong(outcomes: seq<Outcome>, winner: int, id: int)
    requires id in Flags(outcomes, winner)
    ensures exists o :: o in outcomes && o.id == id
  {
    var n := |outcomes| - 1;
    assert outcomes == outcomes[..n] + [outcomes[n]];
    if outcomes[n].id != id {
      FlagsBelong(outcomes[..n], winner, id);
    }
  }

  /** A plan flags outcomes of its own market only. */
  lemma PlanFlagsOwn(db: Db, m: Market, o: StoredOutcome)
    requires Keyed(db) && o in db.outcomes && o.row.id in CurrentPlan(db, m).app.flags
    ensures o.market == m.id
  {
    var outcomes := OutcomesOf(db.outcomes, m.id);
    FlagsBelong(outcomes, CurrentPlan(db, m).app.winnerOutcome.value, o.row.id);
    var r :| r in outcomes && r.id == o.row.id;
    var s :| s in db.outcomes && s.market == m.id && s.row == r;
    var i :| 0 <= i < |db.outcomes| && db.outcomes[i] == o;
    var j :| 0 <= j < |db.outcomes| && db.outcomes[j] == s;
    assert i == j;
  }

  lemma StepKeyed(db: Db, m: Market, skipTrades: bool)
    requires Keyed(db)
    ensures Keyed(Step(db, m, skipTrades))
  {
    var after := Step(db, m, skipTrades);
    forall i | 0 <= i < |db.markets| ensures after.markets[i].id == db.markets[i].id {}
    forall i | 0 <= i < |db.outcomes| ensures after.outcomes[i].row.id == db.outcomes[i].row.id {}
  }

  lemma TradeUpdateSettles(t: Trade, m: Market, outcomes: seq<Outcome>)
    ensures var p := PlanOf(m, outcomes);
            && UpdatedTrade(UpdatedTrade(t, m, p), m, p) == UpdatedTrade(t, m, p)
            && (UpdatedTrade(t, m, p) != t ==> !UpdatedTrade(t, m, p).settlement.status.Unresolved?)
  {
    PlansAreSafe(t, PlanOf(m, outcomes).truth, outcomes);
  }

  lemma StepMakesDone(db: Db, m: Market, skipTrades: bool)
    requires Keyed(db) && m in db.markets
    ensures Done(Step(db, m, skipTrades), m, CurrentPlan(db, m), skipTrades)
  {
    var p, after := CurrentPlan(db, m), Step(db, m, skipTrades);
    SameOutcomes(db.outcomes, p, m.id);
    forall x | x in after.markets && x.id == m.id ensures x == UpdatedMarket(m, p) {
      var i :| 0 <= i < |after.markets| && after.markets[i] == x;
      var j :| 0 <= j < |db.markets| && db.markets[j] == m;
      assert i == j;
    }
    if !skipTrades {
      forall t | t in after.trades ensures UpdatedTrade(t, m, p) == t {
        var i :| 0 <= i < |after.trades| && after.trades[i] == t;
        TradeUpdateSettles(db.trades[i], m, OutcomesOf(db.outcomes, m.id));
      }
    }
  }

  lemma StepKeepsDone(db: Db, m: Market, p: Plan, other: Market, skipTrades: bool)
    requires Keyed(db) && Done(db, m, p, skipTrades) && other.id != m.id
    ensures Done(Step(db, other, skipTrades), m, p, skipTrades)
  {
    var q, after := CurrentPlan(db, other), Step(db, other, skipTrades);
    SameOutcomes(db.outcomes, q, m.id);
    forall x | x in after.markets && x.id == m.id ensures x == UpdatedMarket(m, p) {
      var i :| 0 <= i < |after.markets| && after.markets[i] == x;
      assert db.markets[i] in db.markets;
    }
    forall o | o in after.outcomes ensures UpdatedOutcome(o, p) == o {
      var i :| 0 <= i < |after.outcomes| && after.outcomes[i] == o;
      assert db.outcomes[i] in db.outcomes && UpdatedOutcome(db.outcomes[i], p) == db.outcomes[i];
      if o.row.id in p.app.flags && o.row.id in q.app.flags {
        PlanFlagsOwn(db, m, db.outcomes[i]);
        PlanFlagsOwn(db, other, db.outcomes[i]);
      }
    }
    if !skipTrades {
      forall t | t in after.trades ensures UpdatedTrade(t, m, p) == t {
        var i :| 0 <= i < |after.trades| && after.trades[i] == t;
        assert db.trades[i] in db.trades;
        TradeUpdateSettles(db.trades[i], other, OutcomesOf(db.outcomes, other.id));
      }
    }
  }

  /** A row that its applied plan left resolved is planned in the same way again. */
  lemma SamePlanAgain(m: Market, outcomes: seq<Outcome>)
    requires m.resolved && UpdatedMarket(m, PlanOf(m, outcomes)).resolved
    ensures PlanOf(UpdatedMarket(m, PlanOf(m, outcomes)), outcomes) == PlanOf(m, outcomes)
  {
    var p := PlanOf(m, outcomes);
    var x := UpdatedMarket(m, p);
    StaysResolvedExactlyWhen(m, outcomes);
    if !p.app.ambiguous {
      WinnerExactlyWhen(m, outcomes, p.truth.winningToken.value);
      if LabelOf(m).Some? {
        LabelIsStable(m);
      }
    }
  }

  lemma LabelIsStable(m: Market)
    requires LabelOf(m).Some?
    ensures LabelOf(m.(resolutionOutcome := LabelOf(m))) == LabelOf(m)
  {
    Identity.StripEnds(m.resolutionOutcome.value, Identity.PythonStrip);
    Identity.StripOfStripped(LabelOf(m).value, Identity.PythonStrip);
  }

  lemma DoneIsQuiet(db: Db, m: Market, p: Plan, x: Market, skipTrades: bool)
    requires Keyed(db) && Done(db, m, p, skipTrades) && m.resolved
    requires x in db.markets && x.id == m.id && x.resolved
    ensures Step(db, x, skipTrades) == db
  {
    var outcomes := OutcomesOf(db.outcomes, m.id);
    assert x == UpdatedMarket(m, p);
    SamePlanAgain(m, outcomes);
    StaysResolvedExactlyWhen(m, outcomes);
    assert UpdatedMarket(x, p) == x;
    assert UpdateMarkets(db.markets, x.id, p) == db.markets;
    assert UpdateOutcomes(db.outcomes, p) == db.outcomes;
    if !skipTrades {
      forall i | 0 <= i < |db.trades| ensures UpdatedTrade(db.trades[i], x, p) == db.trades[i] {
        assert db.trades[i] in db.trades;
      }
      assert UpdateTrades(db.trades, x, p) == db.trades;
    }
  }

  // ---- a whole run -----------------------------------------------------------------------------

  /** The tables keep their keys, and markets with other ids than these keep their rows. */
  ghost predicate InPlace(db: Db, after: Db, rows: seq<Market>) {
    && Keyed(after) && |after.markets| == |db.markets|
    && forall k :: 0 <= k < |db.markets| ==> KeepsRow(db, after, rows, k)
  }

  ghost predicate KeepsRow(db: Db, after: Db, rows: seq<Market>, k: nat)
    requires k < |db.markets| == |after.markets|
  {
    && after.markets[k].id == db.markets[k].id
    && ((forall m :: m in rows ==> m.id != db.markets[k].id) ==> after.markets[k] == db.markets[k])
  }

  lemma InPlaceStep(db: Db, before: Db, done: seq<Market>, m: Market, skipTrades: bool)
    requires InPlace(db, before, done)
    ensures InPlace(db, Step(before, m, skipTrades), done + [m])
  {
    var after := Step(before, m, skipTrades);
    StepKeyed(before, m, skipTrades);
    forall k | 0 <= k < |db.markets| ensures KeepsRow(db, after, done + [m], k) {
      assert KeepsRow(db, before, done, k);
      if forall x :: x in done + [m] ==> x.id != db.markets[k].id {
        assert m in done + [m];
        assert forall x :: x in done ==> x in done + [m];
      }
    }
  }

  /** A run rewrites rows in place, and only those of the markets it planned. */
  lemma {:induction false} RunInPlace(db: Db, rows: seq<Market>, skipTrades: bool)
    requires Keyed(db)
    ensures InPlace(db, RunAll(db, rows, {}, skipTrades), rows)
  {
    if rows != [] {
      var n := |rows| - 1;
      RunInPlace(db, rows[..n], skipTrades);
      InPlaceStep(db, RunAll(db, rows[..n], {}, skipTrades), rows[..n], rows[n], skipTrades);
      assert rows == rows[..n] + [rows[n]];
    }
  }

  ghost predicate DistinctMarkets(rows: seq<Market>) {
    forall i, j :: 0 <= i < j < |rows| ==> rows[i].id != rows[j].id
  }

  lemma {:induction false} RunMakesDone(db: Db, rows: seq<Market>, skipTrades: bool, k: nat)
    requires Keyed(db) && DistinctMarkets(rows) && (forall m :: m in rows ==> m in db.markets) && k < |rows|
    ensures Done(RunAll(db, rows, {}, skipTrades), rows[k], CurrentPlan(db, rows[k]), skipTrades)
  {
    var n := |rows| - 1;
    var before := RunAll(db, rows[..n], {}, skipTrades);
    assert rows == rows[..n] + [rows[n]];
    RunInPlace(db, rows[..n], skipTrades);
    if k < n {
      RunMakesDone(db, rows[..n], skipTrades, k);
      StepKeepsDone(before, rows[k], CurrentPlan(db, rows[k]), rows[n], skipTrades);
    } else {
      assert CurrentPlan(before, rows[n]) == CurrentPlan(db, rows[n]) by {
        PlansStay(db, rows[..n], {}, skipTrades, rows[n].id);
      }
      assert rows[n] in before.markets by {
        assert rows[n] in rows;
        var i :| 0 <= i < |db.markets| && db.markets[i] == rows[n];
        assert KeepsRow(db, before, rows[..n], i);
        assert before.markets[i] == rows[n];
      }
      StepMakesDone(before, rows[n], skipTrades);
    }
  }

  lemma {:induction false} QuietRun(db: Db, rows: seq<Market>, skipTrades: bool)
    requires forall m :: m in rows ==> Step(db, m, skipTrades) == db
    ensures RunAll(db, rows, {}, skipTrades) == db
  {
    if rows != [] {
      var n := |rows| - 1;
      assert rows == rows[..n] + [rows[n]];
      QuietRun(db, rows[..n], skipTrades);
    }
  }

  lemma {:induction false} SelectedDistinct(markets: seq<Market>)
    requires DistinctMarkets(markets)
    ensures DistinctMarkets(Selected(markets))
  {
    if markets != [] {
      var n := |markets| - 1;
      SelectedDistinct(markets[..n]);
      SelectedAre(markets[..n]);
      assert forall m :: m in markets[..n] ==> m.id != markets[n].id;
      assert forall m :: m in Selected(markets[..n]) ==> m.id != markets[n].id;
    }
  }

  /** A market that is still resolved after a run was selected by it. */
  lemma StillResolvedWasSelected(db: Db, after: Db, x: Market) returns (k: nat)
    requires InPlace(db, after, Selected(db.markets)) && x in after.markets && x.resolved
    ensures k < |Selected(db.markets)| && Selected(db.markets)[k].id == x.id
  {
    var rows := Selected(db.markets);
    SelectedAre(db.markets);
    var i :| 0 <= i < |after.markets| && after.markets[i] == x;
    assert KeepsRow(db, after, rows, i);
    assert db.markets[i].resolved ==> db.markets[i] in rows;
    var m :| m in rows && m.id == x.id;
    k :| 0 <= k < |rows| && rows[k] == m;
  }

  /** It is planned as before, which changes nothing again. */
  lemma StillResolvedIsQuiet(db: Db, skipTrades: bool, x: Market)
    requires Keyed(db) && x in Selected(RunAll(db, Selected(db.markets), {}, skipTrades).markets)
    ensures var after := RunAll(db, Selected(db.markets), {}, skipTrades); Step(after, x, skipTrades) == after
  {
    var rows := Selected(db.markets);
    var after := RunAll(db, rows, {}, skipTrades);
    RunInPlace(db, rows, skipTrades);
    SelectedAre(db.markets);
    SelectedAre(after.markets);
    var k := StillResolvedWasSelected(db, after, x);
    assert rows[k] in rows;
    SelectedDistinct(db.markets);
    RunMakesDone(db, rows, skipTrades, k);
    DoneIsQuiet(after, rows[k], CurrentPlan(db, rows[k]), x, skipTrades);
  }

  /** The script is idempotent: after an applied run over all resolved markets, a second one
      selects the markets that are still resolved and changes no market, outcome or trade. */
  lemma RerunChangesNothing(db: Db, skipTrades: bool)
    requires Keyed(db)
    ensures var after := RunAll(db, Selected(db.markets), {}, skipTrades);
            RunAll(after, Selected(after.markets), {}, skipTrades) == after
  {
    var after := RunAll(db, Selected(db.markets), {}, skipTrades);
    forall x | x in Selected(after.markets) ensures Step(after, x, skipTrades) == after {
      StillResolvedIsQuiet(db, skipTrades, x);
    }
    QuietRun(after, Selected(after.markets), skipTrades);
  }

  // ---- what a dry run predicts ----------------------------------------------------------------

  ghost predicate DistinctSources(rows: seq<Market>) {
    forall i, j :: 0 <= i < j < |rows| ==> rows[i].sourceId != rows[j].sourceId
  }

  lemma {:induction false} TradesOfOthersStay(trades: seq<Trade>, m: Market, other: Market, p: Plan)
    requires m.sourceId != other.sourceId
    ensures UnsettledTrades(UpdateTrades(trades, other, p), m) == UnsettledTrades(trades, m)
  {
    if trades != [] {
      var n := |trades| - 1;
      assert UpdateTrades(trades, other, p)[..n] == UpdateTrades(trades[..n], other, p);
      TradesOfOthersStay(trades[..n], m, other, p);
    }
  }

  lemma {:induction false} RunKeepsTradesOfOthers(db: Db, rows: seq<Market>, failing: set<string>, m: Market)
    requires forall r :: r in rows ==> r.sourceId != m.sourceId
    ensures UnsettledTrades(RunAll(db, rows, failing, false).trades, m) == UnsettledTrades(db.trades, m)
  {
    if rows != [] {
      var n := |rows| - 1;
      var before := RunAll(db, rows[..n], failing, false);
      assert rows == rows[..n] + [rows[n]];
      RunKeepsTradesOfOthers(db, rows[..n], failing, m);
      assert rows[n] in rows;
      TradesOfOthersStay(before.trades, m, rows[n], CurrentPlan(before, rows[n]));
    }
  }

  /** A dry run reports the trades that applying would plan, when no two selected markets share
      a source id; the market counters agree in any case, since both count by the outcomes at
      the start. */
  lemma {:induction false} DryRunPredictsTrades(db: Db, rows: seq<Market>, failing: set<string>)
    requires DistinctSources(rows)
    ensures Seen(db, rows, failing, false) == Seen(db, rows, failing, true)
  {
    if rows != [] {
      var n := |rows| - 1;
      DryRunPredictsTrades(db, rows[..n], failing);
      forall r | r in rows[..n] ensures r.sourceId != rows[n].sourceId {
        var i :| 0 <= i < n && rows[i] == r;
      }
      RunKeepsTradesOfOthers(db, rows[..n], failing, rows[n]);
    }
  }
}
