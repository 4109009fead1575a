/** What a resolution backfill that fails half-way leaves durable, and what running it again
    makes of that. */
module ResolutionDurability {
  import opened Basics
  import opened Resolution
  import opened ResolutionRun
  import opened ResolutionReplay
  import T = Transactions

  // ---- the writes of a run --------------------------------------------------------------------

  /** Some unsettled trade of the market has a settlement planned. */
  predicate Settles(db: Db, m: Market) {
    var p := CurrentPlan(db, m);
    exists i :: 0 <= i < |db.trades| && Unsettled(db.trades[i], m) && PlanFor(db.trades[i], p.truth, p.app).Some?
  }

  function SettleTrades(db: Db, m: Market): Db {
    db.(trades := UpdateTrades(db.trades, m, CurrentPlan(db, m)))
  }

  /** Applying a market is writing its truth and then, if there are any, its settlements. */
  lemma StepSplits(db: Db, m: Market)
    ensures Step(db, m, false) == SettleTrades(Step(db, m, true), m)
    ensures !Settles(db, m) ==> Step(db, m, false) == Step(db, m, true)
  {
    SameOutcomes(db.outcomes, CurrentPlan(db, m), m.id);
    if !Settles(db, m) {
      assert UpdateTrades(db.trades, m, CurrentPlan(db, m)) == db.trades;
    }
  }

  datatype Write = TruthWrite(market: Market) | TradeWrite(market: Market)

  function MarketWrites(db: Db, m: Market, skipTrades: bool): seq<Write> {
    [TruthWrite(m)] + if !skipTrades && Settles(db, m) then [TradeWrite(m)] else []
  }

  function Writes(db: Db, rows: seq<Market>, skipTrades: bool): seq<Write> {
    if rows == [] then []
    else
      var init, m := rows[..|rows| - 1], rows[|rows| - 1];
      Writes(db, init, skipTrades) + MarketWrites(RunAll(db, init, {}, skipTrades), m, skipTrades)
  }

  /** apply_resolution_truth_to_market begins and commits a transaction of its own unless one is
      open, so it acts as a savepoint does. Settlements are plain updates: they open a
      transaction that stays open until the commit at the end. */
  function StepOf(w: Write, raises: bool): T.Step<Db> {
    match w
    case TruthWrite(m) => T.Step(true, (db: Db) => Step(db, m, true), (db: Db) => db, raises)
    case TradeWrite(m) => T.Step(false, (db: Db) => SettleTrades(db, m), (db: Db) => db, raises)
  }

  function StepsOf(writes: seq<Write>, failAt: Option<nat>): seq<T.Step<Db>> {
    seq(|writes|, i requires 0 <= i < |writes| => StepOf(writes[i], failAt == Some(i)))
  }

  lemma EffectsOfWrite(db: Db, writes: seq<Write>, w: Write, failAt: Option<nat>)
    ensures T.Effects(StepsOf(writes + [w], failAt), db)
            == StepOf(w, false).effect(T.Effects(StepsOf(writes, failAt), db))
  {
    var steps := StepsOf(writes + [w], failAt);
    assert steps[..|writes|] == StepsOf(writes, failAt);
  }

  lemma EffectsOfTruth(db: Db, writes: seq<Write>, m: Market, now: Db, failAt: Option<nat>)
    requires T.Effects(StepsOf(writes, failAt), db) == now
    ensures T.Effects(StepsOf(writes + [TruthWrite(m)], failAt), db) == Step(now, m, true)
  {
    EffectsOfWrite(db, writes, TruthWrite(m), failAt);
  }

  lemma EffectsOfTrades(db: Db, writes: seq<Write>, m: Market, now: Db, failAt: Option<nat>)
    requires T.Effects(StepsOf(writes, failAt), db) == now
    ensures T.Effects(StepsOf(writes + [TradeWrite(m)], failAt), db) == SettleTrades(now, m)
  {
    EffectsOfWrite(db, writes, TradeWrite(m), failAt);
  }

  lemma EffectsOfBoth(db: Db, writes: seq<Write>, m: Market, now: Db, failAt: Option<nat>)
    requires T.Effects(StepsOf(writes, failAt), db) == now
    ensures T.Effects(StepsOf(writes + [TruthWrite(m), TradeWrite(m)], failAt), db) == SettleTrades(Step(now, m, true), m)
  {
    EffectsOfTruth(db, writes, m, now, failAt);
    EffectsOfTrades(db, writes + [TruthWrite(m)], m, Step(now, m, true), failAt);
    assert writes + [TruthWrite(m), TradeWrite(m)] == (writes + [TruthWrite(m)]) + [TradeWrite(m)];
  }

  lemma EffectsOfMarket(db: Db, writes: seq<Write>, m: Market, now: Db, skipTrades: bool, failAt: Option<nat>)
    requires T.Effects(StepsOf(writes, failAt), db) == now
    ensures T.Effects(StepsOf(writes + MarketWrites(now, m, skipTrades), failAt), db) == Step(now, m, skipTrades)
  {
    StepSplits(now, m);
    if !skipTrades && Settles(now, m) {
      EffectsOfBoth(db, writes, m, now, failAt);
      assert MarketWrites(now, m, skipTrades) == [TruthWrite(m), TradeWrite(m)];
    } else {
      EffectsOfTruth(db, writes, m, now, failAt);
      assert MarketWrites(now, m, skipTrades) == [TruthWrite(m)];
    }
  }

  lemma {:induction false} EffectsAreRun(db: Db, rows: seq<Market>, skipTrades: bool, failAt: Option<nat>)
    ensures T.Effects(StepsOf(Writes(db, rows, skipTrades), failAt), db) == RunAll(db, rows, {}, skipTrades)
  {
    if rows != [] {
      var init, m := rows[..|rows| - 1], rows[|rows| - 1];
      EffectsAreRun(db, init, skipTrades, failAt);
      EffectsOfMarket(db, Writes(db, init, skipTrades), m, RunAll(db, init, {}, skipTrades), skipTrades, failAt);
    }
  }

  /** No row of these settles a trade when its turn comes. */
  predicate SettleNone(db: Db, rows: seq<Market>, skipTrades: bool) {
    rows != [] ==>
      var init, m := rows[..|rows| - 1], rows[|rows| - 1];
      SettleNone(db, init, skipTrades) && (skipTrades || !Settles(RunAll(db, init, {}, skipTrades), m))
  }

  /** How many leading markets have their truth committed on its own: those up to the first one
      that settles trades, itself included. */
  function TruthPrefix(db: Db, rows: seq<Market>, skipTrades: bool): (n: nat)
    ensures n <= |rows|
  {
    if rows == [] then 0
    else
      var init := rows[..|rows| - 1];
      if SettleNone(db, init, skipTrades) then |rows| else TruthPrefix(db, init, skipTrades)
  }

  /** The first n writes are the truths of the first n rows; none says that there are no others. */
  ghost predicate Leads(writes: seq<Write>, rows: seq<Market>, n: nat, none: bool) {
    && n <= |writes| && n <= |rows| && (forall i :: 0 <= i < n ==> writes[i] == TruthWrite(rows[i]))
    && (n < |writes| ==> writes[n].TradeWrite?)
    && (none <==> n == |writes|) && (none ==> n == |rows|)
  }

  lemma LeadsSnoc(writes: seq<Write>, rows: seq<Market>, n: nat, none: bool, m: Market, settles: bool)
    requires Leads(writes, rows, n, none)
    ensures Leads(writes + ([TruthWrite(m)] + if settles then [TradeWrite(m)] else []), rows + [m],
                  if none then |rows| + 1 else n, none && !settles)
  {
  }

  lemma {:induction false} WritesStart(db: Db, rows: seq<Market>, skipTrades: bool)
    ensures Leads(Writes(db, rows, skipTrades), rows, TruthPrefix(db, rows, skipTrades), SettleNone(db, rows, skipTrades))
  {
    if rows != [] {
      var init, m := rows[..|rows| - 1], rows[|rows| - 1];
      WritesStart(db, init, skipTrades);
      LeadsSnoc(Writes(db, init, skipTrades), init, TruthPrefix(db, init, skipTrades), SettleNone(db, init, skipTrades),
                m, !skipTrades && Settles(RunAll(db, init, {}, skipTrades), m));
      assert init + [m] == rows;
    }
  }

  /** Without settlements a run is its truth writes. */
  lemma {:induction false} TruthsAreRun(db: Db, rows: seq<Market>, skipTrades: bool)
    requires SettleNone(db, rows, skipTrades)
    ensures RunAll(db, rows, {}, skipTrades) == RunAll(db, rows, {}, true)
  {
    if rows != [] {
      var init, m := rows[..|rows| - 1], rows[|rows| - 1];
      TruthsAreRun(db, init, skipTrades);
      StepSplits(RunAll(db, init, {}, skipTrades), m);
    }
  }

  lemma {:induction false} EffectsOfTruths(db: Db, rows: seq<Market>, writes: seq<Write>, failAt: Option<nat>)
    requires |rows| == |writes| && forall i :: 0 <= i < |rows| ==> writes[i] == TruthWrite(rows[i])
    ensures T.Effects(StepsOf(writes, failAt), db) == RunAll(db, rows, {}, true)
  {
    if rows != [] {
      var n := |rows| - 1;
      EffectsOfTruths(db, rows[..n], writes[..n], failAt);
      assert StepsOf(writes, failAt)[..n] == StepsOf(writes[..n], failAt);
    }
  }

  lemma ReleasedAreTruths(writes: seq<Write>, n: nat, k: nat)
    requires n <= |writes| && k < |writes|
    requires (forall i :: 0 <= i < n ==> writes[i].TruthWrite?) && (n < |writes| ==> writes[n].TradeWrite?)
    ensures T.ReleasedPrefix(StepsOf(writes, Some(k))) == Min(k, n)
  {
    var steps := StepsOf(writes, Some(k));
    assert steps[k].raises;
    assert n < |writes| ==> !steps[n].savepointed;
    assert forall i :: 0 <= i < Min(k, n) ==> steps[i].savepointed && !steps[i].raises;
  }

  /** The applied run with its transactions, where one of its writes may raise. A run that
      completes is durable as a whole. One that fails leaves the truth of the leading markets
      before the failure, up to the first market that settles trades, and no settlement: that
      market's settlements open a transaction that takes everything after it along. */
  method ApplyAll(conn: T.Connection<Db>, rows: seq<Market>, skipTrades: bool, failAt: Option<nat>) returns (ok: bool)
    requires conn.Idle() && (failAt.Some? ==> failAt.value < |Writes(conn.durable, rows, skipTrades)|)
    modifies conn
    ensures conn.Idle() && (ok <==> failAt.None?)
    ensures ok ==> conn.durable == RunAll(old(conn.durable), rows, {}, skipTrades)
    ensures !ok ==>
              var n := Min(failAt.value, TruthPrefix(old(conn.durable), rows, skipTrades));
              conn.durable == RunAll(old(conn.durable), rows[..n], {}, true)
  {
    var start := conn.durable;
    var writes := Writes(start, rows, skipTrades);
    ok := T.RunBatch(conn, StepsOf(writes, failAt));
    EffectsAreRun(start, rows, skipTrades, failAt);
    if failAt.Some? {
      assert StepsOf(writes, failAt)[failAt.value].raises;
      FailedRunLeaves(start, rows, skipTrades, failAt.value);
    }
  }

  lemma FailedRunLeaves(db: Db, rows: seq<Market>, skipTrades: bool, k: nat)
    requires k < |Writes(db, rows, skipTrades)|
    ensures var steps := StepsOf(Writes(db, rows, skipTrades), Some(k));
            T.Effects(steps[..T.ReleasedPrefix(steps)], db)
            == RunAll(db, rows[..Min(k, TruthPrefix(db, rows, skipTrades))], {}, true)
  {
    var writes := Writes(db, rows, skipTrades);
    WritesStart(db, rows, skipTrades);
    ReleasedAreTruths(writes, TruthPrefix(db, rows, skipTrades), k);
    LeadingTruths(db, rows, writes, Min(k, TruthPrefix(db, rows, skipTrades)), Some(k));
  }

  lemma LeadingTruths(db: Db, rows: seq<Market>, writes: seq<Write>, n: nat, failAt: Option<nat>)
    requires n <= |rows| && n <= |writes| && forall i :: 0 <= i < n ==> writes[i] == TruthWrite(rows[i])
    ensures T.Effects(StepsOf(writes, failAt)[..n], db) == RunAll(db, rows[..n], {}, true)
  {
    assert StepsOf(writes, failAt)[..n] == StepsOf(writes[..n], failAt);
    EffectsOfTruths(db, rows[..n], writes[..n], failAt);
  }

  // ---- running it again -------------------------------------------------------------------------

  lemma LastRow(db: Db, rows: seq<Market>, skipTrades: bool)
    requires rows != []
    ensures RunAll(db, rows, {}, skipTrades)
            == Step(RunAll(db, rows[..|rows| - 1], {}, skipTrades), rows[|rows| - 1], skipTrades)
  {
  }

  lemma InitOfConcat<X>(a: seq<X>, b: seq<X>)
    requires b != []
    ensures (a + b)[..|a + b| - 1] == a + b[..|b| - 1] && (a + b)[|a + b| - 1] == b[|b| - 1]
  {
  }

  lemma {:induction false} RunAllConcat(db: Db, a: seq<Market>, b: seq<Market>, skipTrades: bool)
    ensures RunAll(db, a + b, {}, skipTrades) == RunAll(RunAll(db, a, {}, skipTrades), b, {}, skipTrades)
  {
    if b == [] {
      assert a + b == a;
    } else {
      var n := |b| - 1;
      var mid := RunAll(db, a, {}, skipTrades);
      calc {
        RunAll(db, a + b, {}, skipTrades);
        { LastRow(db, a + b, skipTrades); InitOfConcat(a, b); }
        Step(RunAll(db, a + b[..n], {}, skipTrades), b[n], skipTrades);
        { RunAllConcat(db, a, b[..n], skipTrades); }
        Step(RunAll(mid, b[..n], {}, skipTrades), b[n], skipTrades);
        { LastRow(mid, b, skipTrades); }
        RunAll(mid, b, {}, skipTrades);
      }
    }
  }

  lemma {:induction false} SelectedConcat(a: seq<Market>, b: seq<Market>)
    ensures Selected(a + b) == Selected(a) + Selected(b)
  {
    if b == [] {
      assert a + b == a;
    } else {
      var n := |b| - 1;
      var last := if b[n].resolved then [b[n]] else [];
      calc {
        Selected(a + b);
        { assert (a + b)[..|a + b| - 1] == a + b[..n]; }
        Selected(a + b[..n]) + last;
        { SelectedConcat(a, b[..n]); }
        (Selected(a) + Selected(b[..n])) + last;
        { Associates(Selected(a), Selected(b[..n]), last); }
        Selected(a) + (Selected(b[..n]) + last);
        Selected(a) + Selected(b);
      }
    }
  }

  /** Market i is the k-th selected one: what is selected on either side of it. */
  ghost predicate IsSelected(markets: seq<Market>, i: nat, k: nat) {
    && i < |markets| && k < |Selected(markets)| && markets[i] == Selected(markets)[k]
    && Selected(markets[..i]) == Selected(markets)[..k]
    && Selected(markets[i + 1..]) == Selected(markets)[k + 1..]
  }

  /** The table around the k-th of the selected rows. */
  ghost predicate Around(markets: seq<Market>, rows: seq<Market>, k: nat, head: seq<Market>, tail: seq<Market>) {
    && k < |rows| && markets == head + ([rows[k]] + tail)
    && Selected(head) == rows[..k] && Selected(tail) == rows[k + 1..]
  }

  lemma TailOfConcat<X>(s: seq<X>, t: seq<X>, k: nat)
    requires k < |s|
    ensures (s + t)[k + 1..] == s[k + 1..] + t && (s + t)[..k] == s[..k] && (s + t)[k] == s[k]
  {
  }

  lemma AroundSnoc(init: seq<Market>, rows: seq<Market>, k: nat, head: seq<Market>, tail: seq<Market>, last: Market,
                   more: seq<Market>)
    requires Around(init, rows, k, head, tail) && more == Selected([last])
    ensures Around(init + [last], rows + more, k, head, tail + [last])
  {
    TailOfConcat(rows, more, k);
    SelectedConcat(tail, [last]);
    assert (head + ([rows[k]] + tail)) + [last] == head + ([rows[k]] + (tail + [last]));
  }

  lemma SelectedSnoc(init: seq<Market>, last: Market)
    ensures Selected(init + [last]) == Selected(init) + Selected([last])
    ensures Selected([last]) == if last.resolved then [last] else []
  {
    assert [last][..0] == [];
    SelectedConcat(init, [last]);
  }

  lemma AroundLast(init: seq<Market>, rows: seq<Market>, last: Market, more: seq<Market>, k: nat)
    requires rows == Selected(init) && more == (if last.resolved then [last] else [])
    requires |rows| <= k < |rows + more|
    ensures Around(init + [last], rows + more, k, init, [])
  {
    assert rows + more == rows + [last] && init + ([last] + []) == init + [last];
  }

  lemma TableOfTwo(init: seq<Market>, last: Market, k: nat) returns (head: seq<Market>, tail: seq<Market>)
    requires k < |Selected(init) + Selected([last])|
    ensures Around(init + [last], Selected(init) + Selected([last]), k, head, tail)
    decreases |init| + 1, 0
  {
    if k < |Selected(init)| {
      head, tail := TableAround(init, k);
      AroundSnoc(init, Selected(init), k, head, tail, last, Selected([last]));
      tail := tail + [last];
    } else {
      SelectedSnoc(init, last);
      head, tail := init, [];
      AroundLast(init, Selected(init), last, Selected([last]), k);
    }
  }

  lemma {:induction false} TableAround(markets: seq<Market>, k: nat) returns (head: seq<Market>, tail: seq<Market>)
    requires k < |Selected(markets)|
    ensures Around(markets, Selected(markets), k, head, tail)
    decreases |markets|, 1
  {
    var init, last := markets[..|markets| - 1], markets[|markets| - 1];
    assert init + [last] == markets;
    SelectedSnoc(init, last);
    head, tail := TableOfTwo(init, last, k);
  }

  lemma SelectedAt(markets: seq<Market>, k: nat) returns (i: nat)
    requires k < |Selected(markets)|
    ensures IsSelected(markets, i, k)
  {
    var head, tail := TableAround(markets, k);
    i := |head|;
    PiecesOf(markets, head, Selected(markets)[k], tail);
  }

  lemma PiecesOf<X>(s: seq<X>, head: seq<X>, x: X, tail: seq<X>)
    requires s == head + ([x] + tail)
    ensures |head| < |s| && s[|head|] == x && s[..|head|] == head && s[|head| + 1..] == tail
  {
  }

  /** The truth write of another market keeps a market's plan in place, settlements included. */
  lemma TruthKeepsDone(db: Db, m: Market, p: Plan, other: Market, skipTrades: bool)
    requires Keyed(db) && Done(db, m, p, skipTrades) && other.id != m.id
    ensures Done(Step(db, other, true), m, p, skipTrades)
  {
    StepKeepsDone(db, m, p, other, true);
  }

  /** A market whose truth alone is durable is planned as before, and settles then what it would
      have settled; if its resolution was withdrawn there was nothing to settle. */
  lemma TruthThenRest(db: Db, m: Market, skipTrades: bool, x: Market)
    requires Keyed(db) && m in db.markets && m.resolved
    requires x in Step(db, m, true).markets && x.id == m.id
    ensures if x.resolved then Step(Step(db, m, true), x, skipTrades) == Step(db, m, skipTrades)
            else Step(db, m, true) == Step(db, m, skipTrades)
  {
    var p, after := CurrentPlan(db, m), Step(db, m, true);
    var outcomes := OutcomesOf(db.outcomes, m.id);
    StepMakesDone(db, m, true);
    StaysResolvedExactlyWhen(m, outcomes);
    if x.resolved {
      SamePlanAgain(m, outcomes);
      SameOutcomes(db.outcomes, p, m.id);
      StepKeyed(db, m, true);
      DoneIsQuiet(after, m, p, x, true);
      assert UpdateTrades(after.trades, x, p) == UpdateTrades(db.trades, m, p);
      StepSplits(db, m);
      StepSplits(after, x);
    } else {
      PlansAreSafe(Trade("", "", None, None, None, Settlement(Unresolved, None, None, None)), p.truth, outcomes);
      assert !Settles(db, m);
      StepSplits(db, m);
    }
  }

  lemma {:induction false} SettleNonePrefix(db: Db, rows: seq<Market>, skipTrades: bool, n: nat)
    requires n < TruthPrefix(db, rows, skipTrades)
    ensures SettleNone(db, rows[..n], skipTrades)
  {
    var init := rows[..|rows| - 1];
    if SettleNone(db, init, skipTrades) {
      SettlePrefix(db, init, skipTrades, n);
      assert init[..n] == rows[..n];
    } else {
      SettleNonePrefix(db, init, skipTrades, n);
      assert init[..n] == rows[..n];
    }
  }

  lemma {:induction false} SettlePrefix(db: Db, rows: seq<Market>, skipTrades: bool, n: nat)
    requires SettleNone(db, rows, skipTrades) && n <= |rows|
    ensures SettleNone(db, rows[..n], skipTrades)
  {
    if n == |rows| {
      assert rows[..n] == rows;
    } else {
      SettlePrefix(db, rows[..|rows| - 1], skipTrades, n);
      assert rows[..|rows| - 1][..n] == rows[..n];
    }
  }

  /** A market before the n-th that is still resolved is quiet once the n-th has its truth. */
  lemma EarlierIsQuiet(db: Db, rows: seq<Market>, i: nat, m: Market, skipTrades: bool, k: nat)
    requires Keyed(db) && DistinctMarkets(rows + [m]) && (forall r :: r in rows + [m] ==> r in db.markets && r.resolved)
    requires i < |db.markets| && k < |rows| && rows[k] == db.markets[i]
    ensures var after := Step(RunAll(db, rows, {}, skipTrades), m, true);
            && i < |after.markets|
            && (after.markets[i].resolved ==> Step(after, after.markets[i], skipTrades) == after)
  {
    var before := RunAll(db, rows, {}, skipTrades);
    var after := Step(before, m, true);
    assert (rows + [m])[k] == rows[k] && (rows + [m])[|rows|] == m;
    assert forall r :: r in rows ==> r in rows + [m];
    assert DistinctMarkets(rows) by {
      forall a, b | 0 <= a < b < |rows| ensures rows[a].id != rows[b].id {
        assert (rows + [m])[a] == rows[a] && (rows + [m])[b] == rows[b];
      }
    }
    RunInPlace(db, rows, skipTrades);
    RunMakesDone(db, rows, skipTrades, k);
    TruthKeepsDone(before, rows[k], CurrentPlan(db, rows[k]), m, skipTrades);
    StepKeyed(before, m, true);
    assert KeepsRow(db, before, rows, i);
    if after.markets[i].resolved {
      assert after.markets[i] in after.markets;
      assert rows[k] in rows + [m];
      DoneIsQuiet(after, rows[k], CurrentPlan(db, rows[k]), after.markets[i], skipTrades);
    }
  }

  /** The state before the k-th selected market, and with its truth written. */
  function BeforeMarket(db: Db, k: nat, skipTrades: bool): Db
    requires k <= |Selected(db.markets)|
  {
    RunAll(db, Selected(db.markets)[..k], {}, skipTrades)
  }

  function WithTruth(db: Db, k: nat, skipTrades: bool): Db
    requires k < |Selected(db.markets)|
  {
    Step(BeforeMarket(db, k, skipTrades), Selected(db.markets)[k], true)
  }

  lemma NotSelectedBefore(db: Db, i: nat, k: nat, j: nat)
    requires Keyed(db) && IsSelected(db.markets, i, k) && i <= j < |db.markets|
    ensures forall r :: r in Selected(db.markets)[..k] ==> r.id != db.markets[j].id
  {
    SelectedAre(db.markets[..i]);
    forall r | r in Selected(db.markets)[..k] ensures r.id != db.markets[j].id {
      assert r in db.markets[..i];
      var l :| 0 <= l < i && db.markets[..i][l] == r;
      assert db.markets[l] == r;
    }
  }

  lemma LaterRowsWait(db: Db, i: nat, k: nat, skipTrades: bool)
    requires Keyed(db) && IsSelected(db.markets, i, k)
    ensures var before := BeforeMarket(db, k, skipTrades);
            && Keyed(before) && |before.markets| == |db.markets|
            && forall j :: i <= j < |db.markets| ==> before.markets[j] == db.markets[j]
  {
    var done, before := Selected(db.markets)[..k], BeforeMarket(db, k, skipTrades);
    RunInPlace(db, done, skipTrades);
    forall j | i <= j < |db.markets| ensures before.markets[j] == db.markets[j] {
      NotSelectedBefore(db, i, k, j);
      assert KeepsRow(db, before, done, j);
    }
  }

  /** A step rewrites no row with another id. */
  lemma StepKeepsOthers(db: Db, m: Market, skipTrades: bool, i: nat)
    requires Keyed(db) && i < |db.markets| && db.markets[i] == m
    ensures var after := Step(db, m, skipTrades);
            && |after.markets| == |db.markets| && after.markets[i].id == m.id
            && after.markets[i + 1..] == db.markets[i + 1..]
  {
    var after := Step(db, m, skipTrades);
    forall j | i < j < |db.markets| ensures after.markets[j] == db.markets[j] {
      assert db.markets[i].id != db.markets[j].id;
    }
  }

  /** Rows that come later in the table are as they were. */
  lemma LaterRowsStay(db: Db, i: nat, k: nat, skipTrades: bool)
    requires Keyed(db) && IsSelected(db.markets, i, k)
    ensures var d := WithTruth(db, k, skipTrades);
            && Keyed(BeforeMarket(db, k, skipTrades)) && |d.markets| == |db.markets|
            && Selected(db.markets)[k] in BeforeMarket(db, k, skipTrades).markets
            && d.markets[i].id == Selected(db.markets)[k].id
            && d.markets[i + 1..] == db.markets[i + 1..]
  {
    var before := BeforeMarket(db, k, skipTrades);
    LaterRowsWait(db, i, k, skipTrades);
    StepKeepsOthers(before, Selected(db.markets)[k], true, i);
    assert before.markets[i] in before.markets;
    assert before.markets[i + 1..] == db.markets[i + 1..];
  }

  /** An earlier row of the table changes nothing when the run is repeated. */
  lemma EarlierRowIsQuiet(db: Db, i: nat, k: nat, skipTrades: bool, l: nat)
    requires Keyed(db) && IsSelected(db.markets, i, k) && l < i
    ensures var d := WithTruth(db, k, skipTrades);
            l < |d.markets| && (d.markets[l].resolved ==> Step(d, d.markets[l], skipTrades) == d)
  {
    var rows, m := Selected(db.markets), Selected(db.markets)[k];
    SelectedAre(db.markets);
    SelectedAre(db.markets[..i]);
    assert forall r :: r in rows[..k] + [m] ==> r in rows;
    SelectedDistinct(db.markets);
    assert rows[..k] + [m] == rows[..k + 1];
    assert DistinctMarkets(rows[..k + 1]);
    if db.markets[l].resolved {
      assert db.markets[..i][l] == db.markets[l];
      assert db.markets[l] in Selected(db.markets[..i]);
      var q :| 0 <= q < k && rows[..k][q] == db.markets[l];
      EarlierIsQuiet(db, rows[..k], l, m, skipTrades, q);
    } else {
      UnselectedStays(db, k, skipTrades, l);
    }
  }

  lemma UnselectedStays(db: Db, k: nat, skipTrades: bool, l: nat)
    requires Keyed(db) && k < |Selected(db.markets)| && l < |db.markets| && !db.markets[l].resolved
    ensures var d := WithTruth(db, k, skipTrades); l < |d.markets| && d.markets[l] == db.markets[l]
  {
    var rows := Selected(db.markets);
    SelectedAre(db.markets);
    forall r | r in rows ensures r.id != db.markets[l].id {
      var j :| 0 <= j < |db.markets| && db.markets[j] == r;
    }
    RunInPlace(db, rows[..k], skipTrades);
    assert KeepsRow(db, BeforeMarket(db, k, skipTrades), rows[..k], l);
    assert rows[k] in rows;
  }

  lemma HeadIsQuiet(db: Db, i: nat, k: nat, skipTrades: bool)
    requires Keyed(db) && IsSelected(db.markets, i, k)
    requires i <= |WithTruth(db, k, skipTrades).markets|
    ensures var d := WithTruth(db, k, skipTrades); RunAll(d, Selected(d.markets[..i]), {}, skipTrades) == d
  {
    var d := WithTruth(db, k, skipTrades);
    SelectedAre(d.markets[..i]);
    forall y | y in Selected(d.markets[..i]) ensures Step(d, y, skipTrades) == d {
      var l :| 0 <= l < i && d.markets[..i][l] == y;
      EarlierRowIsQuiet(db, i, k, skipTrades, l);
    }
    QuietRun(d, Selected(d.markets[..i]), skipTrades);
  }

  /** What a second run selects: earlier rows, the market itself, and the rest as before. */
  lemma SelectionAfterTruth(db: Db, i: nat, k: nat, skipTrades: bool)
    requires Keyed(db) && IsSelected(db.markets, i, k)
    ensures var d := WithTruth(db, k, skipTrades);
            && i < |d.markets|
            && Selected(d.markets)
               == Selected(d.markets[..i]) + (Selected([d.markets[i]]) + Selected(db.markets)[k + 1..])
  {
    LaterRowsStay(db, i, k, skipTrades);
    SelectedParts(WithTruth(db, k, skipTrades).markets, i);
  }

  lemma SelectedParts(markets: seq<Market>, i: nat)
    requires i < |markets|
    ensures Selected(markets) == Selected(markets[..i]) + (Selected([markets[i]]) + Selected(markets[i + 1..]))
  {
    SplitAround(markets, i);
    SelectedOfThree(markets[..i], [markets[i]], markets[i + 1..]);
  }

  lemma SplitAround<X>(s: seq<X>, i: nat)
    requires i < |s|
    ensures s == s[..i] + ([s[i]] + s[i + 1..])
  {
  }

  lemma SelectedOfThree(a: seq<Market>, b: seq<Market>, c: seq<Market>)
    ensures Selected(a + (b + c)) == Selected(a) + (Selected(b) + Selected(c))
  {
    SelectedConcat(a, b + c);
    SelectedConcat(b, c);
  }

  lemma MarketAfterTruth(db: Db, i: nat, k: nat, skipTrades: bool)
    requires Keyed(db) && IsSelected(db.markets, i, k)
    ensures var d := WithTruth(db, k, skipTrades);
            && i < |d.markets|
            && RunAll(d, Selected([d.markets[i]]), {}, skipTrades)
               == Step(BeforeMarket(db, k, skipTrades), Selected(db.markets)[k], skipTrades)
  {
    var d, m := WithTruth(db, k, skipTrades), Selected(db.markets)[k];
    LaterRowsStay(db, i, k, skipTrades);
    SelectedAre(db.markets);
    assert m in Selected(db.markets);
    TruthThenRest(BeforeMarket(db, k, skipTrades), m, skipTrades, d.markets[i]);
    RunOfOne(d, d.markets[i], skipTrades);
  }

  /** Repeating the run after the truth of the k-th market: the rows before it are quiet, the
      market itself settles its trades, and the rest runs as it would have. */
  lemma RepeatAfterTruth(db: Db, i: nat, k: nat, skipTrades: bool)
    requires Keyed(db) && IsSelected(db.markets, i, k)
    ensures var d := WithTruth(db, k, skipTrades);
            RunAll(d, Selected(d.markets), {}, skipTrades) == RunAll(db, Selected(db.markets), {}, skipTrades)
  {
    var d := WithTruth(db, k, skipTrades);
    SelectionAfterTruth(db, i, k, skipTrades);
    HeadIsQuiet(db, i, k, skipTrades);
    MarketAfterTruth(db, i, k, skipTrades);
    var head, own, rest := Selected(d.markets[..i]), Selected([d.markets[i]]), Selected(db.markets)[k + 1..];
    calc {
      RunAll(d, Selected(d.markets), {}, skipTrades);
      RunAll(d, head + (own + rest), {}, skipTrades);
      { RunAllConcat(d, head, own + rest, skipTrades); }
      RunAll(d, own + rest, {}, skipTrades);
      { RunAllConcat(d, own, rest, skipTrades); }
      RunAll(Step(BeforeMarket(db, k, skipTrades), Selected(db.markets)[k], skipTrades), rest, {}, skipTrades);
      { RunFromMarket(db, k, skipTrades); }
      RunAll(db, Selected(db.markets), {}, skipTrades);
    }
  }

  lemma RunOfOne(db: Db, x: Market, skipTrades: bool)
    ensures RunAll(db, Selected([x]), {}, skipTrades) == if x.resolved then Step(db, x, skipTrades) else db
  {
    assert [x][..0] == [];
  }

  lemma RunFromMarket(db: Db, k: nat, skipTrades: bool)
    requires k < |Selected(db.markets)|
    ensures var rows := Selected(db.markets);
            RunAll(db, rows, {}, skipTrades)
            == RunAll(Step(BeforeMarket(db, k, skipTrades), rows[k], skipTrades), rows[k + 1..], {}, skipTrades)
  {
    var rows := Selected(db.markets);
    assert rows == rows[..k + 1] + rows[k + 1..];
    RunAllConcat(db, rows[..k + 1], rows[k + 1..], skipTrades);
    assert rows[..k + 1][..k] == rows[..k];
  }

  /** The truth of the first k + 1 markets is that of a run up to market k and then its own. */
  lemma LeftBehind(db: Db, k: nat, skipTrades: bool)
    requires k < TruthPrefix(db, Selected(db.markets), skipTrades)
    ensures k < |Selected(db.markets)|
    ensures RunAll(db, Selected(db.markets)[..k + 1], {}, true) == WithTruth(db, k, skipTrades)
  {
    var rows := Selected(db.markets);
    SettleNonePrefix(db, rows, skipTrades, k);
    TruthsAreRun(db, rows[..k], skipTrades);
    RunAllSnoc(db, rows, {}, true, k);
  }

  /** Recovery: whatever write of an applied run failed, running the script again over the
      markets that are then resolved ends in the state of an uninterrupted run. */
  lemma RecoveryCompletes(db: Db, skipTrades: bool, n: nat)
    requires Keyed(db) && n <= TruthPrefix(db, Selected(db.markets), skipTrades)
    ensures var left := RunAll(db, Selected(db.markets)[..n], {}, true);
            RunAll(left, Selected(left.markets), {}, skipTrades) == RunAll(db, Selected(db.markets), {}, skipTrades)
  {
    if n > 0 {
      RecoveryFrom(db, skipTrades, n - 1);
    }
  }

  lemma RecoveryFrom(db: Db, skipTrades: bool, k: nat)
    requires Keyed(db) && k < TruthPrefix(db, Selected(db.markets), skipTrades)
    ensures var left := RunAll(db, Selected(db.markets)[..k + 1], {}, true);
            RunAll(left, Selected(left.markets), {}, skipTrades) == RunAll(db, Selected(db.markets), {}, skipTrades)
  {
    LeftBehind(db, k, skipTrades);
    var i := SelectedAt(db.markets, k);
    RepeatAfterTruth(db, i, k, skipTrades);
  }
}
