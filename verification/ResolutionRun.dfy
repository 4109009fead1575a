/** A run of the resolution backfill over the resolved markets. */
module ResolutionRun {
  import opened Basics
  import opened Resolution

  datatype StoredOutcome = StoredOutcome(market: string, row: Outcome, isWinner: Option<bool>)

  /** markets (by id), market_outcomes and source_trades. */
  datatype Db = Db(markets: seq<Market>, outcomes: seq<StoredOutcome>, trades: seq<Trade>)

  ghost predicate Keyed(db: Db) {
    && (forall i, j :: 0 <= i < j < |db.markets| ==> db.markets[i].id != db.markets[j].id)
    && (forall i, j :: 0 <= i < j < |db.outcomes| ==> db.outcomes[i].row.id != db.outcomes[j].row.id)
  }

  // ---- one market -----------------------------------------------------------------------

  /** _fetch_outcomes_for_market. */
  function OutcomesOf(outcomes: seq<StoredOutcome>, market: string): (r: seq<Outcome>)
    ensures forall o :: o in r ==> exists s :: s in outcomes && s.market == market && s.row == o
  {
    if outcomes == [] then []
    else
      var last := outcomes[|outcomes| - 1];
      assert outcomes == outcomes[..|outcomes| - 1] + [last];
      OutcomesOf(outcomes[..|outcomes| - 1], market) + (if last.market == market then [last.row] else [])
  }

  /** _fetch_unsettled_trades_for_market selects these. */
  predicate Unsettled(t: Trade, m: Market) {
    t.marketSourceId == m.sourceId && t.settlement.status.Unresolved? && t.token.Some?
  }

  function UnsettledTrades(trades: seq<Trade>, m: Market): seq<Trade> {
    if trades == [] then []
    else
      var last := trades[|trades| - 1];
      UnsettledTrades(trades[..|trades| - 1], m) + (if Unsettled(last, m) then [last] else [])
  }

  function MissingTokens(trades: seq<Trade>, m: Market): nat {
    if trades == [] then 0
    else
      var last := trades[|trades| - 1];
      MissingTokens(trades[..|trades| - 1], m)
      + (if last.marketSourceId == m.sourceId && last.settlement.status.Unresolved? && last.token.None? then 1 else 0)
  }

  datatype Plan = Plan(truth: Truth, app: Application)

  function PlanOf(m: Market, outcomes: seq<Outcome>): Plan {
    var truth := Truth(m.id, m.resolved, WinnerOf(m, outcomes), LabelOf(m));
    Plan(truth, ApplicationOf(truth, outcomes))
  }

  /** What apply_resolution_truth_to_market makes of the market's row, audit stamps aside. */
  function UpdatedMarket(m: Market, p: Plan): Market {
    if p.app.ambiguous then m
    else if !p.app.resolved then m.(resolved := false, winningToken := None)
    else m.(resolved := true, winningToken := p.truth.winningToken,
            resolutionOutcome := if p.truth.resolutionOutcome.Some? then p.truth.resolutionOutcome else m.resolutionOutcome)
  }

  function UpdatedOutcome(o: StoredOutcome, p: Plan): StoredOutcome {
    if p.app.resolved && !p.app.ambiguous && o.row.id in p.app.flags then
      o.(isWinner := Some(p.app.flags[o.row.id]))
    else o
  }

  function UpdatedTrade(t: Trade, m: Market, p: Plan): Trade {
    var plan := PlanFor(t, p.truth, p.app);
    if Unsettled(t, m) && plan.Some? then t.(settlement := plan.value) else t
  }

  /** Each update names a row by its key. */
  function UpdateMarkets(markets: seq<Market>, id: string, p: Plan): seq<Market> {
    seq(|markets|, i requires 0 <= i < |markets| =>
      if markets[i].id == id then UpdatedMarket(markets[i], p) else markets[i])
  }

  function UpdateOutcomes(outcomes: seq<StoredOutcome>, p: Plan): seq<StoredOutcome> {
    seq(|outcomes|, i requires 0 <= i < |outcomes| => UpdatedOutcome(outcomes[i], p))
  }

  function UpdateTrades(trades: seq<Trade>, m: Market, p: Plan): seq<Trade> {
    seq(|trades|, i requires 0 <= i < |trades| => UpdatedTrade(trades[i], m, p))
  }

  function ApplyPlan(db: Db, m: Market, p: Plan, skipTrades: bool): Db {
    Db(UpdateMarkets(db.markets, m.id, p), UpdateOutcomes(db.outcomes, p),
       if skipTrades then db.trades else UpdateTrades(db.trades, m, p))
  }

  function Step(db: Db, m: Market, skipTrades: bool): Db {
    ApplyPlan(db, m, PlanOf(m, OutcomesOf(db.outcomes, m.id)), skipTrades)
  }

  /** Applying the plan of a resolved market keeps it resolved exactly when a winning token was
      found for it. */
  lemma StaysResolvedExactlyWhen(m: Market, outcomes: seq<Outcome>)
    requires m.resolved
    ensures UpdatedMarket(m, PlanOf(m, outcomes)).resolved <==> WinnerOf(m, outcomes).Some?
  {
    AmbiguousExactlyWhen(PlanOf(m, outcomes).truth, outcomes);
  }

  /** Two distinct tokens under the label of a market without a stored winner: the plan is not
      flagged ambiguous, the report counts it as without a match, and applying it withdraws
      the market's resolution. */
  lemma DistinctTokensWithdrawResolution(m: Market, outcomes: seq<Outcome>, a: Outcome, b: Outcome)
    requires m.resolved && NonEmpty(m.winningToken).None? && LabelOf(m).Some?
    requires a in outcomes && b in outcomes && NonEmpty(a.token).Some? && NonEmpty(b.token).Some?
    requires Names(a, LabelOf(m).value, a.token.value) && Names(b, LabelOf(m).value, b.token.value)
    requires a.token != b.token
    ensures ClassOf(PlanOf(m, outcomes)) == NoMatch && !UpdatedMarket(m, PlanOf(m, outcomes)).resolved
  {
    if WinnerOf(m, outcomes).Some? {
      WinnerExactlyWhen(m, outcomes, WinnerOf(m, outcomes).value);
    }
    StaysResolvedExactlyWhen(m, outcomes);
    AmbiguousExactlyWhen(PlanOf(m, outcomes).truth, outcomes);
  }

  // ---- the report -----------------------------------------------------------------------------

  datatype Class = Planned | NoMatch | Ambiguous | NotResolved

  function ClassOf(p: Plan): Class {
    if p.truth.resolved && !p.app.ambiguous then if p.app.winnerOutcome.Some? then Planned else NoMatch
    else if p.app.ambiguous then Ambiguous
    else NotResolved
  }

  class BackfillReport {
    var marketsSeen: nat
    var marketsPlanned: nat
    var marketsAmbiguous: nat
    var marketsNoMatch: nat
    var tradesSeen: nat
    var tradesSettled: nat
    var tradesSkippedUnresolved: nat
    var tradesSkippedMissingToken: nat
    var byStatus: map<Status, nat>

    constructor ()
      ensures marketsSeen == marketsPlanned == marketsAmbiguous == marketsNoMatch == 0
      ensures tradesSeen == tradesSkippedMissingToken == 0 && Consistent()
    {
      marketsSeen, marketsPlanned, marketsAmbiguous, marketsNoMatch := 0, 0, 0, 0;
      tradesSeen, tradesSettled, tradesSkippedUnresolved, tradesSkippedMissingToken := 0, 0, 0, 0;
      byStatus := map[Unresolved := 0, Won := 0, Lost := 0, AmbiguousMarket := 0, Unknown := 0];
    }

    /** Every trade seen is either skipped or counted under one status; the settled ones are
        those won and lost. */
    ghost predicate Consistent()
      reads this
    {
      && byStatus.Keys == {Unresolved, Won, Lost, AmbiguousMarket, Unknown} && byStatus[Unresolved] == 0
      && tradesSettled == byStatus[Won] + byStatus[Lost]
      && tradesSeen
         == tradesSkippedUnresolved + byStatus[Won] + byStatus[Lost] + byStatus[AmbiguousMarket] + byStatus[Unknown]
    }

    method CountPlan(plan: Option<Settlement>)
      requires Consistent() && (plan.Some? ==> !plan.value.status.Unresolved?)
      modifies this`tradesSeen, this`tradesSettled, this`tradesSkippedUnresolved, this`byStatus
      ensures Consistent() && tradesSeen == old(tradesSeen) + 1
      ensures plan.None? ==> tradesSkippedUnresolved == old(tradesSkippedUnresolved) + 1 && byStatus == old(byStatus)
      ensures plan.Some? ==> tradesSkippedUnresolved == old(tradesSkippedUnresolved)
                             && byStatus == old(byStatus)[plan.value.status := old(byStatus)[plan.value.status] + 1]
    {
      tradesSeen := tradesSeen + 1;
      if plan.None? {
        tradesSkippedUnresolved := tradesSkippedUnresolved + 1;
      } else {
        var status := plan.value.status;
        byStatus := byStatus[status := byStatus[status] + 1];
        if status.Won? || status.Lost? {
          tradesSettled := tradesSettled + 1;
        }
      }
    }
  }

  class TruthStore {
    var db: Db

    constructor (initial: Db)
      ensures db == initial
    {
      db := initial;
    }
  }

  /** The database after the plans of these rows, taken in order; failing names the markets
      whose planning raises and is logged. */
  function RunAll(db: Db, rows: seq<Market>, failing: set<string>, skipTrades: bool): Db {
    if rows == [] then db
    else
      var before, m := RunAll(db, rows[..|rows| - 1], failing, skipTrades), rows[|rows| - 1];
      if m.id in failing then before else Step(before, m, skipTrades)
  }

  lemma RunAllSnoc(db: Db, rows: seq<Market>, failing: set<string>, skipTrades: bool, i: nat)
    requires i < |rows|
    ensures RunAll(db, rows[..i + 1], failing, skipTrades)
            == var before := RunAll(db, rows[..i], failing, skipTrades);
               if rows[i].id in failing then before else Step(before, rows[i], skipTrades)
  {
    assert rows[..i + 1][..i] == rows[..i];
  }

  /** Steps write no column that planning reads from market_outcomes. */
  lemma {:induction false} SameOutcomes(outcomes: seq<StoredOutcome>, p: Plan, market: string)
    ensures OutcomesOf(UpdateOutcomes(outcomes, p), market) == OutcomesOf(outcomes, market)
  {
    if outcomes != [] {
      var n := |outcomes| - 1;
      assert UpdateOutcomes(outcomes, p)[..n] == UpdateOutcomes(outcomes[..n], p);
      SameOutcomes(outcomes[..n], p, market);
    }
  }

  lemma {:induction false} PlansStay(db: Db, rows: seq<Market>, failing: set<string>, skipTrades: bool, market: string)
    ensures OutcomesOf(RunAll(db, rows, failing, skipTrades).outcomes, market) == OutcomesOf(db.outcomes, market)
  {
    if rows != [] {
      var n := |rows| - 1;
      PlansStay(db, rows[..n], failing, skipTrades, market);
      var before := RunAll(db, rows[..n], failing, skipTrades);
      SameOutcomes(before.outcomes, PlanOf(rows[n], OutcomesOf(before.outcomes, rows[n].id)), market);
    }
  }

  /** How many rows are planned, and fall into the class, by the outcomes at the start. */
  function CountClass(db: Db, rows: seq<Market>, failing: set<string>, c: Class): nat {
    if rows == [] then 0
    else
      var m := rows[|rows| - 1];
      CountClass(db, rows[..|rows| - 1], failing, c)
      + (if m.id !in failing && ClassOf(PlanOf(m, OutcomesOf(db.outcomes, m.id))) == c then 1 else 0)
  }

  function CountPlannable(rows: seq<Market>, failing: set<string>): nat {
    if rows == [] then 0
    else CountPlannable(rows[..|rows| - 1], failing) + (if rows[|rows| - 1].id in failing then 0 else 1)
  }

  lemma CountsSnoc(db: Db, rows: seq<Market>, failing: set<string>, i: nat, c: Class)
    requires i < |rows|
    ensures CountClass(db, rows[..i + 1], failing, c)
            == CountClass(db, rows[..i], failing, c)
               + (if rows[i].id !in failing && ClassOf(PlanOf(rows[i], OutcomesOf(db.outcomes, rows[i].id))) == c
                  then 1 else 0)
  {
    assert rows[..i + 1][..i] == rows[..i];
  }

  /** Every planned resolved market is counted once, as planned, without a match or ambiguous. */
  lemma {:induction false} ClassesPartition(db: Db, rows: seq<Market>, failing: set<string>)
    requires forall m :: m in rows ==> m.resolved
    ensures CountClass(db, rows, failing, Planned) + CountClass(db, rows, failing, NoMatch)
            + CountClass(db, rows, failing, Ambiguous) == CountPlannable(rows, failing)
  {
    if rows != [] {
      var n := |rows| - 1;
      ClassesPartition(db, rows[..n], failing);
      assert rows[n] in rows;
    }
  }

  /** Trades that a run plans; in apply mode each market sees what the ones before it settled. */
  function Seen(db: Db, rows: seq<Market>, failing: set<string>, applies: bool): nat {
    if rows == [] then 0
    else
      var init, m := rows[..|rows| - 1], rows[|rows| - 1];
      var before := if applies then RunAll(db, init, failing, false) else db;
      Seen(db, init, failing, applies) + (if m.id in failing then 0 else |UnsettledTrades(before.trades, m)|)
  }

  lemma SeenSnoc(db: Db, rows: seq<Market>, failing: set<string>, applies: bool, i: nat)
    requires i < |rows|
    ensures Seen(db, rows[..i + 1], failing, applies)
            == Seen(db, rows[..i], failing, applies)
               + (if rows[i].id in failing then 0
                  else |UnsettledTrades((if applies then RunAll(db, rows[..i], failing, false) else db).trades, rows[i])|)
  {
    assert rows[..i + 1][..i] == rows[..i];
  }

  /** How many of these trades get a plan with this status, and how many none. */
  function CountStatus(trades: seq<Trade>, p: Plan, status: Status): nat {
    if trades == [] then 0
    else
      var plan := PlanFor(trades[|trades| - 1], p.truth, p.app);
      CountStatus(trades[..|trades| - 1], p, status) + (if plan.Some? && plan.value.status == status then 1 else 0)
  }

  function CountUnplanned(trades: seq<Trade>, p: Plan): nat {
    if trades == [] then 0
    else
      CountUnplanned(trades[..|trades| - 1], p)
      + (if PlanFor(trades[|trades| - 1], p.truth, p.app).None? then 1 else 0)
  }

  /** Each status has gained its plans. */
  ghost predicate Adds(before: map<Status, nat>, after: map<Status, nat>, trades: seq<Trade>, p: Plan) {
    forall st: Status :: st != Unresolved ==>
      st in before && st in after && after[st] == before[st] + CountStatus(trades, p, st)
  }

  /** The same over a run. */
  function SettledAs(db: Db, rows: seq<Market>, failing: set<string>, applies: bool, status: Status): nat {
    if rows == [] then 0
    else
      var init, m := rows[..|rows| - 1], rows[|rows| - 1];
      var before := if applies then RunAll(db, init, failing, false) else db;
      SettledAs(db, init, failing, applies, status)
      + (if m.id in failing then 0
         else CountStatus(UnsettledTrades(before.trades, m), PlanOf(m, OutcomesOf(before.outcomes, m.id)), status))
  }

  function Unplanned(db: Db, rows: seq<Market>, failing: set<string>, applies: bool): nat {
    if rows == [] then 0
    else
      var init, m := rows[..|rows| - 1], rows[|rows| - 1];
      var before := if applies then RunAll(db, init, failing, false) else db;
      Unplanned(db, init, failing, applies)
      + (if m.id in failing then 0
         else CountUnplanned(UnsettledTrades(before.trades, m), PlanOf(m, OutcomesOf(before.outcomes, m.id))))
  }

  function MissingSeen(db: Db, rows: seq<Market>, failing: set<string>, applies: bool): nat {
    if rows == [] then 0
    else
      var init, m := rows[..|rows| - 1], rows[|rows| - 1];
      var before := if applies then RunAll(db, init, failing, false) else db;
      MissingSeen(db, init, failing, applies) + (if m.id in failing then 0 else MissingTokens(before.trades, m))
  }

  // ---- the loop ---------------------------------------------------------------------------------

  /** One more planned trade is one more in its status, or one more without a plan. */
  lemma PlansSnoc(before: map<Status, nat>, after: map<Status, nat>, trades: seq<Trade>, p: Plan, i: nat)
    requires i < |trades| && Adds(before, after, trades[..i], p)
    ensures var plan := PlanFor(trades[i], p.truth, p.app);
            && CountUnplanned(trades[..i + 1], p) == CountUnplanned(trades[..i], p) + (if plan.None? then 1 else 0)
            && (plan.None? ==> Adds(before, after, trades[..i + 1], p))
            && (plan.Some? && !plan.value.status.Unresolved? ==>
                  Adds(before, after[plan.value.status := after[plan.value.status] + 1], trades[..i + 1], p))
  {
    assert trades[..i + 1][..i] == trades[..i] && trades[..i + 1][i] == trades[i];
  }

  /** The trade loop of one market. */
  method CountPlans(report: BackfillReport, trades: seq<Trade>, m: Market, p: Plan, outcomes: seq<Outcome>)
    requires report.Consistent() && p == PlanOf(m, outcomes)
    modifies report`tradesSeen, report`tradesSettled, report`tradesSkippedUnresolved, report`byStatus,
      report`tradesSkippedMissingToken
    ensures report.Consistent()
    ensures report.tradesSeen == old(report.tradesSeen) + |UnsettledTrades(trades, m)|
    ensures report.tradesSkippedMissingToken == old(report.tradesSkippedMissingToken) + MissingTokens(trades, m)
    ensures report.tradesSkippedUnresolved
            == old(report.tradesSkippedUnresolved) + CountUnplanned(UnsettledTrades(trades, m), p)
    ensures Adds(old(report.byStatus), report.byStatus, UnsettledTrades(trades, m), p)
  {
    var selected := UnsettledTrades(trades, m);
    report.tradesSkippedMissingToken := report.tradesSkippedMissingToken + MissingTokens(trades, m);
    assert selected[..0] == [];
    for i := 0 to |selected|
      invariant report.Consistent() && report.tradesSeen == old(report.tradesSeen) + i
      invariant report.tradesSkippedMissingToken == old(report.tradesSkippedMissingToken) + MissingTokens(trades, m)
      invariant report.tradesSkippedUnresolved
                == old(report.tradesSkippedUnresolved) + CountUnplanned(selected[..i], p)
      invariant Adds(old(report.byStatus), report.byStatus, selected[..i], p)
    {
      PlansSnoc(old(report.byStatus), report.byStatus, selected, p, i);
      PlansAreSafe(selected[i], p.truth, outcomes);
      report.CountPlan(PlanFor(selected[i], p.truth, p.app));
    }
    assert selected[..|selected|] == selected;
  }

  method CountMarket(report: BackfillReport, c: Class)
    modifies report`marketsPlanned, report`marketsNoMatch, report`marketsAmbiguous
    ensures report.marketsPlanned == old(report.marketsPlanned) + (if c == Planned then 1 else 0)
    ensures report.marketsNoMatch == old(report.marketsNoMatch) + (if c == NoMatch then 1 else 0)
    ensures report.marketsAmbiguous == old(report.marketsAmbiguous) + (if c == Ambiguous then 1 else 0)
  {
    match c {
      case Planned => report.marketsPlanned := report.marketsPlanned + 1;
      case NoMatch => report.marketsNoMatch := report.marketsNoMatch + 1;
      case Ambiguous => report.marketsAmbiguous := report.marketsAmbiguous + 1;
      case NotResolved =>
    }
  }

  /** One market: planned, counted and, unless in a dry run, applied. */
  method ProcessMarket(store: TruthStore, report: BackfillReport, m: Market, dryRun: bool, skipTrades: bool)
    requires report.Consistent()
    modifies store, report`marketsPlanned, report`marketsNoMatch, report`marketsAmbiguous, report`tradesSeen,
      report`tradesSettled, report`tradesSkippedUnresolved, report`byStatus, report`tradesSkippedMissingToken
    ensures report.Consistent()
    ensures store.db == if dryRun then old(store.db) else Step(old(store.db), m, skipTrades)
    ensures var c := ClassOf(PlanOf(m, OutcomesOf(old(store.db).outcomes, m.id)));
            && report.marketsPlanned == old(report.marketsPlanned) + (if c == Planned then 1 else 0)
            && report.marketsNoMatch == old(report.marketsNoMatch) + (if c == NoMatch then 1 else 0)
            && report.marketsAmbiguous == old(report.marketsAmbiguous) + (if c == Ambiguous then 1 else 0)
    ensures report.tradesSeen
            == old(report.tradesSeen) + (if skipTrades then 0 else |UnsettledTrades(old(store.db).trades, m)|)
    ensures skipTrades ==>
              && report.tradesSkippedUnresolved == old(report.tradesSkippedUnresolved)
              && report.tradesSkippedMissingToken == old(report.tradesSkippedMissingToken)
              && report.byStatus == old(report.byStatus)
    ensures !skipTrades ==>
              var trades, p := old(store.db).trades, PlanOf(m, OutcomesOf(old(store.db).outcomes, m.id));
              && report.tradesSkippedUnresolved
                 == old(report.tradesSkippedUnresolved) + CountUnplanned(UnsettledTrades(trades, m), p)
              && report.tradesSkippedMissingToken == old(report.tradesSkippedMissingToken) + MissingTokens(trades, m)
              && Adds(old(report.byStatus), report.byStatus, UnsettledTrades(trades, m), p)
  {
    var outcomes := OutcomesOf(store.db.outcomes, m.id);
    var truth := PlanTruth(m, outcomes);
    var p := Plan(truth, ApplicationOf(truth, outcomes));
    CountMarket(report, ClassOf(p));
    if !skipTrades {
      CountPlans(report, store.db.trades, m, p, outcomes);
    }
    if !dryRun {
      store.db := ApplyPlan(store.db, m, p, skipTrades);
    }
  }

  datatype Tally = Tally(planned: nat, noMatch: nat, ambiguous: nat, seen: nat)

  /** State and counters after these rows of a run that started at db: in apply mode every plan is
      in place, a dry run leaves the database alone, and the counters are those of the plans. */
  ghost predicate Progress(db: Db, now: Db, rows: seq<Market>, failing: set<string>, dryRun: bool, skipTrades: bool,
                           t: Tally) {
    && now == (if dryRun then db else RunAll(db, rows, failing, skipTrades))
    && t.planned == CountClass(db, rows, failing, Planned)
    && t.noMatch == CountClass(db, rows, failing, NoMatch)
    && t.ambiguous == CountClass(db, rows, failing, Ambiguous)
    && t.seen == (if skipTrades then 0 else Seen(db, rows, failing, !dryRun))
  }

  lemma NothingYet(db: Db, failing: set<string>, dryRun: bool, skipTrades: bool)
    ensures Progress(db, db, [], failing, dryRun, skipTrades, Tally(0, 0, 0, 0))
  {
  }

  lemma ProgressStep(db: Db, now: Db, rows: seq<Market>, failing: set<string>, dryRun: bool, skipTrades: bool,
                     t: Tally, i: nat)
    requires i < |rows| && Progress(db, now, rows[..i], failing, dryRun, skipTrades, t)
    ensures var m := rows[i];
            var c := ClassOf(PlanOf(m, OutcomesOf(now.outcomes, m.id)));
            if m.id in failing then Progress(db, now, rows[..i + 1], failing, dryRun, skipTrades, t)
            else Progress(db, if dryRun then now else Step(now, m, skipTrades), rows[..i + 1], failing, dryRun, skipTrades,
                          Tally(t.planned + (if c == Planned then 1 else 0),
                                t.noMatch + (if c == NoMatch then 1 else 0),
                                t.ambiguous + (if c == Ambiguous then 1 else 0),
                                t.seen + (if skipTrades then 0 else |UnsettledTrades(now.trades, m)|)))
  {
    RunAllSnoc(db, rows, failing, skipTrades, i);
    PlansStay(db, rows[..i], failing, skipTrades, rows[i].id);
    CountsSnoc(db, rows, failing, i, Planned);
    CountsSnoc(db, rows, failing, i, NoMatch);
    CountsSnoc(db, rows, failing, i, Ambiguous);
    SeenSnoc(db, rows, failing, !dryRun, i);
  }

  /** The trade counters after these rows: one count for every status, for the trades without a
      plan and for those without a token. */
  ghost predicate TradesCounted(db: Db, rows: seq<Market>, failing: set<string>, dryRun: bool, byStatus: map<Status, nat>,
                                unplanned: nat, missing: nat) {
    && unplanned == Unplanned(db, rows, failing, !dryRun) && missing == MissingSeen(db, rows, failing, !dryRun)
    && forall st: Status :: st != Unresolved ==>
         st in byStatus && byStatus[st] == SettledAs(db, rows, failing, !dryRun, st)
  }

  lemma TradesCountedStep(db: Db, now: Db, rows: seq<Market>, failing: set<string>, dryRun: bool, i: nat,
                          byStatus: map<Status, nat>, unplanned: nat, missing: nat,
                          byStatus1: map<Status, nat>, unplanned1: nat, missing1: nat)
    requires i < |rows| && now == (if dryRun then db else RunAll(db, rows[..i], failing, false))
    requires TradesCounted(db, rows[..i], failing, dryRun, byStatus, unplanned, missing)
    requires var m, trades := rows[i], UnsettledTrades(now.trades, rows[i]);
             var p := PlanOf(m, OutcomesOf(now.outcomes, m.id));
             if m.id in failing then byStatus1 == byStatus && unplanned1 == unplanned && missing1 == missing
             else && unplanned1 == unplanned + CountUnplanned(trades, p) && missing1 == missing + MissingTokens(now.trades, m)
                  && Adds(byStatus, byStatus1, trades, p)
    ensures TradesCounted(db, rows[..i + 1], failing, dryRun, byStatus1, unplanned1, missing1)
  {
    assert rows[..i + 1][..i] == rows[..i];
  }

  function TallyOf(report: BackfillReport): Tally
    reads report
  {
    Tally(report.marketsPlanned, report.marketsNoMatch, report.marketsAmbiguous, report.tradesSeen)
  }

  lemma NoTradesYet(db: Db, failing: set<string>, dryRun: bool, report: BackfillReport)
    requires report.Consistent() && report.tradesSeen == report.tradesSkippedMissingToken == 0
    ensures TradesCounted(db, [], failing, dryRun, report.byStatus, report.tradesSkippedUnresolved,
                          report.tradesSkippedMissingToken)
  {
  }

  /** The loop's state after these rows. */
  ghost predicate LoopState(db: Db, now: Db, rows: seq<Market>, failing: set<string>, dryRun: bool, skipTrades: bool,
                            report: BackfillReport)
    reads report
  {
    && report.Consistent()
    && Progress(db, now, rows, failing, dryRun, skipTrades, TallyOf(report))
    && (!skipTrades ==>
          TradesCounted(db, rows, failing, dryRun, report.byStatus, report.tradesSkippedUnresolved,
                        report.tradesSkippedMissingToken))
  }

  /** One row of the loop. */
  method ProcessRow(store: TruthStore, report: BackfillReport, rows: seq<Market>, failing: set<string>,
                    dryRun: bool, skipTrades: bool, i: nat, ghost db: Db)
    requires i < |rows| && LoopState(db, store.db, rows[..i], failing, dryRun, skipTrades, report)
    modifies store, report`marketsPlanned, report`marketsNoMatch, report`marketsAmbiguous, report`tradesSeen,
      report`tradesSettled, report`tradesSkippedUnresolved, report`byStatus, report`tradesSkippedMissingToken
    ensures LoopState(db, store.db, rows[..i + 1], failing, dryRun, skipTrades, report)
  {
    ProgressStep(db, store.db, rows, failing, dryRun, skipTrades, TallyOf(report), i);
    ghost var now, byStatus := store.db, report.byStatus;
    ghost var unplanned, missing := report.tradesSkippedUnresolved, report.tradesSkippedMissingToken;
    if rows[i].id !in failing {
      ProcessMarket(store, report, rows[i], dryRun, skipTrades);
    }
    if !skipTrades {
      TradesCountedStep(db, now, rows, failing, dryRun, i, byStatus, unplanned, missing,
                        report.byStatus, report.tradesSkippedUnresolved, report.tradesSkippedMissingToken);
    }
  }

  /** The loop of main over the selected resolved markets. */
  method RunBackfill(store: TruthStore, report: BackfillReport, rows: seq<Market>, failing: set<string>,
                     dryRun: bool, skipTrades: bool)
    requires report.Consistent() && TallyOf(report) == Tally(0, 0, 0, 0) && report.tradesSkippedMissingToken == 0
    requires forall m :: m in rows ==> m.resolved
    modifies store, report
    ensures Progress(old(store.db), store.db, rows, failing, dryRun, skipTrades, TallyOf(report))
    ensures report.Consistent() && report.marketsSeen == |rows|
    ensures !skipTrades ==>
              TradesCounted(old(store.db), rows, failing, dryRun, report.byStatus, report.tradesSkippedUnresolved,
                            report.tradesSkippedMissingToken)
    ensures report.marketsPlanned + report.marketsNoMatch + report.marketsAmbiguous == CountPlannable(rows, failing)
  {
    ghost var db := store.db;
    NothingYet(db, failing, dryRun, skipTrades);
    NoTradesYet(db, failing, dryRun, report);
    assert rows[..0] == [];
    report.marketsSeen := |rows|;
    for i := 0 to |rows|
      invariant report.marketsSeen == |rows| && LoopState(db, store.db, rows[..i], failing, dryRun, skipTrades, report)
    {
      ProcessRow(store, report, rows, failing, dryRun, skipTrades, i, db);
    }
    assert rows[..|rows|] == rows;
    ClassesPartition(db, rows, failing);
  }
}
