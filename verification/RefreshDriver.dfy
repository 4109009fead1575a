/** Driver runs of the market refresh: what a batch leaves durable, and what the retry budget
    means over any number of periodic passes. */
module RefreshDriver {
  import opened Basics
  import opened Transactions
  import opened Refresh

  type Rows = map<string, Row>

  // ---- the trades of a market -----------------------------------------------------------------

  /** A linked source_trades row: what settling it reads, and its resolution columns once it is
      no longer unresolved. */
  datatype SourceTrade<F, S> = SourceTrade(market: string, facts: F, settlement: Option<S>)

  /** How a trade is settled against a market's truth, and when two settlements agree (profit and
      loss up to a tolerance). */
  datatype Settler<!F, !V, !S> = Settler(settle: (F, V) -> S, same: (S, S) -> bool)

  ghost predicate Agrees<F, V, S(!new)>(settler: Settler<F, V, S>) {
    forall s: S :: settler.same(s, s)
  }

  /** One provider call: a truth, or any other state. */
  datatype Answer<V> = Answer(market: string, found: Found<V>, selectedAt: int, at: int)
  datatype Found<V> = Truth(truth: V, checkedAt: int) | NoTruth(status: Status, error: ErrorTag)

  datatype Books<F, S> = Books(rows: Rows, trades: seq<SourceTrade<F, S>>)

  /** An already resolved trade of the market disagrees with the truth. */
  predicate Conflicts<F, V, S>(settler: Settler<F, V, S>, trades: seq<SourceTrade<F, S>>, market: string, truth: V) {
    exists i :: 0 <= i < |trades| && trades[i].market == market && trades[i].settlement.Some?
                && !settler.same(trades[i].settlement.value, settler.settle(trades[i].facts, truth))
  }

  function CheckOf<F, V, S>(settler: Settler<F, V, S>, b: Books<F, S>, a: Answer<V>): Check {
    match a.found
    case Truth(v, checkedAt) =>
      var error := if Conflicts(settler, b.trades, a.market, v) then Conflict else NoError;
      Check(Outcome(a.market, Resolved, error, Some(checkedAt)), a.selectedAt, a.at)
    case NoTruth(status, error) => Check(Outcome(a.market, status, error, None), a.selectedAt, a.at)
  }

  function SettleRow<F, V, S>(settler: Settler<F, V, S>, t: SourceTrade<F, S>, market: string, truth: V): SourceTrade<F, S> {
    if t.market == market && t.settlement.None? then t.(settlement := Some(settler.settle(t.facts, truth))) else t
  }

  /** The source-trade updates of one market: none on a conflict, else every unresolved trade. */
  function SettleMarket<F, V, S>(settler: Settler<F, V, S>, trades: seq<SourceTrade<F, S>>, a: Answer<V>)
      : (r: seq<SourceTrade<F, S>>)
    ensures |r| == |trades|
  {
    if a.found.NoTruth? || Conflicts(settler, trades, a.market, a.found.truth) then trades
    else seq(|trades|, i requires 0 <= i < |trades| => SettleRow(settler, trades[i], a.market, a.found.truth))
  }

  /** What one market's turn writes: its trades and its bookkeeping row. */
  function Turn<F, V, S>(settler: Settler<F, V, S>, b: Books<F, S>, a: Answer<V>): Books<F, S> {
    var c := CheckOf(settler, b, a);
    Books(b.rows[a.market := NextRow(Lookup(b.rows, a.market), c.outcome, c.at)], SettleMarket(settler, b.trades, a))
  }

  function Turns<F, V, S>(settler: Settler<F, V, S>, b: Books<F, S>, answers: seq<Answer<V>>): Books<F, S> {
    if answers == [] then b
    else
      var n := |answers| - 1;
      Turn(settler, Turns(settler, b, answers[..n]), answers[n])
  }

  /** The checks that a run records, conflicts included. */
  function ChecksOf<F, V, S>(settler: Settler<F, V, S>, b: Books<F, S>, answers: seq<Answer<V>>): seq<Check> {
    if answers == [] then []
    else
      var n := |answers| - 1;
      ChecksOf(settler, b, answers[..n]) + [CheckOf(settler, Turns(settler, b, answers[..n]), answers[n])]
  }

  /** So the bookkeeping of a run is that of the checks it records. */
  lemma {:induction false} TurnsReplay<F, V, S>(settler: Settler<F, V, S>, b: Books<F, S>, answers: seq<Answer<V>>)
    ensures Turns(settler, b, answers).rows == Replay(b.rows, ChecksOf(settler, b, answers))
  {
    if answers != [] {
      var n := |answers| - 1;
      var done, c := ChecksOf(settler, b, answers[..n]), CheckOf(settler, Turns(settler, b, answers[..n]), answers[n]);
      TurnsReplay(settler, b, answers[..n]);
      ReplaySnoc(b.rows, done, c);
      assert c.outcome.market == answers[n].market;
    }
  }

  lemma ReplaySnoc(rows: Rows, h: seq<Check>, c: Check)
    ensures Replay(rows, h + [c])
            == Replay(rows, h)[c.outcome.market := NextRow(Lookup(Replay(rows, h), c.outcome.market), c.outcome, c.at)]
  {
    assert (h + [c])[..|h|] == h;
  }

  /** A resolved trade of the market disagrees with the truth. */
  ghost predicate Disagrees<F, V, S(!new)>(settler: Settler<F, V, S>, trades: seq<SourceTrade<F, S>>, market: string, truth: V) {
    exists t :: t in trades && t.market == market && t.settlement.Some?
                && !settler.same(t.settlement.value, settler.settle(t.facts, truth))
  }

  /** One market's turn, trade by trade and column by column. A truth settles exactly the market's
      unresolved trades, unless a resolved one disagrees; then no trade changes and the conflict
      is recorded. Any other answer changes no trade and is recorded as it came. */
  lemma TurnMeans<F, V, S(!new)>(settler: Settler<F, V, S>, b: Books<F, S>, a: Answer<V>)
    ensures var after := Turn(settler, b, a);
            var conflict := a.found.Truth? && Disagrees(settler, b.trades, a.market, a.found.truth);
            && |after.trades| == |b.trades|
            && (forall i :: 0 <= i < |b.trades| ==>
                  after.trades[i]
                  == if a.found.Truth? && !conflict && b.trades[i].market == a.market && b.trades[i].settlement.None?
                     then b.trades[i].(settlement := Some(settler.settle(b.trades[i].facts, a.found.truth)))
                     else b.trades[i])
            && (forall m :: m != a.market ==> Lookup(after.rows, m) == Lookup(b.rows, m))
            && a.market in after.rows
            && var r := after.rows[a.market];
               && r.lastCheckedAt == a.at
               && (a.found.Truth? ==>
                     && r.lastStatus == Resolved && r.lastError == (if conflict then Conflict else NoError)
                     && r.resolvedAt == Some(a.found.checkedAt))
               && (a.found.NoTruth? ==>
                     r.lastStatus == a.found.status && r.lastError == a.found.error && r.resolvedAt == None)
  {
    if a.found.Truth? {
      if Conflicts(settler, b.trades, a.market, a.found.truth) {
        var i :| 0 <= i < |b.trades| && b.trades[i].market == a.market && b.trades[i].settlement.Some?
                 && !settler.same(b.trades[i].settlement.value, settler.settle(b.trades[i].facts, a.found.truth));
        assert b.trades[i] in b.trades;
      }
    }
  }

  /** No run changes a trade that is already resolved, whatever the provider answers later, and
      none changes the facts. */
  lemma {:induction false} SettledTradesStay<F, V, S>(settler: Settler<F, V, S>, b: Books<F, S>, answers: seq<Answer<V>>, i: nat)
    requires i < |b.trades|
    ensures var after := Turns(settler, b, answers).trades;
            && |after| == |b.trades|
            && after[i].market == b.trades[i].market && after[i].facts == b.trades[i].facts
            && (b.trades[i].settlement.Some? ==> after[i] == b.trades[i])
  {
    if answers != [] {
      SettledTradesStay(settler, b, answers[..|answers| - 1], i);
    }
  }

  /** The bookkeeping tells the truth about the trades: a turn records a clean resolution exactly
      when it found a truth with which every linked trade then agrees. */
  lemma CleanExactlyWhenSettled<F, V, S(!new)>(settler: Settler<F, V, S>, b: Books<F, S>, a: Answer<V>)
    requires Agrees(settler) && (a.found.NoTruth? ==> !a.found.status.Resolved?)
    ensures var after := Turn(settler, b, a);
            var r := after.rows[a.market];
            IsCleanResolution(r.lastStatus, r.lastError)
            <==> a.found.Truth?
                 && forall t :: t in after.trades && t.market == a.market ==>
                      t.settlement.Some? && settler.same(t.settlement.value, settler.settle(t.facts, a.found.truth))
  {
    var after := Turn(settler, b, a);
    if a.found.Truth? {
      if Conflicts(settler, b.trades, a.market, a.found.truth) {
        var i :| 0 <= i < |b.trades| && b.trades[i].market == a.market && b.trades[i].settlement.Some?
                 && !settler.same(b.trades[i].settlement.value, settler.settle(b.trades[i].facts, a.found.truth));
        assert after.trades[i] in after.trades;
      } else {
        forall t | t in after.trades && t.market == a.market
          ensures t.settlement.Some? && settler.same(t.settlement.value, settler.settle(t.facts, a.found.truth))
        {
          var i :| 0 <= i < |after.trades| && after.trades[i] == t;
          assert t == SettleRow(settler, b.trades[i], a.market, a.found.truth);
        }
      }
    }
  }

  // ---- one run ----------------------------------------------------------------------------------

  /** resolve_selected_markets writes a resolved market's trades and bookkeeping under its
      savepoint, and every other outcome's bookkeeping directly. */
  function StepOf<F, V, S>(settler: Settler<F, V, S>, a: Answer<V>, raises: bool): Step<Books<F, S>> {
    Step(a.found.Truth?,
         (b: Books<F, S>) => Turn(settler, b, a),
         (b: Books<F, S>) => Books(b.rows, SettleMarket(settler, b.trades, a)),
         raises)
  }

  function StepsOf<F, V, S>(settler: Settler<F, V, S>, answers: seq<Answer<V>>, failAt: Option<nat>): seq<Step<Books<F, S>>> {
    seq(|answers|, i requires 0 <= i < |answers| => StepOf(settler, answers[i], failAt == Some(i)))
  }

  lemma {:induction false} EffectsAreTurns<F, V, S>(settler: Settler<F, V, S>, b: Books<F, S>, answers: seq<Answer<V>>,
                                                    failAt: Option<nat>)
    ensures Effects(StepsOf(settler, answers, failAt), b) == Turns(settler, b, answers)
  {
    if answers != [] {
      var n := |answers| - 1;
      EffectsAreTurns(settler, b, answers[..n], failAt);
      assert StepsOf(settler, answers, failAt)[..n] == StepsOf(settler, answers[..n], failAt);
    }
  }

  /** The leading markets with a truth. */
  function ResolvedPrefix<V>(answers: seq<Answer<V>>): (n: nat)
    ensures n <= |answers|
    ensures forall i :: 0 <= i < n ==> answers[i].found.Truth?
    ensures n < |answers| ==> answers[n].found.NoTruth?
  {
    if answers != [] && answers[0].found.Truth? then 1 + ResolvedPrefix(answers[1..]) else 0
  }

  /** One refresh run over the provider's answers, with an optional write that raises. On success
      the whole batch is durable. On failure at market k the leading resolved markets before it
      stay durable, each with its trades and its bookkeeping, although the run reports an error;
      everything after the first unresolved or failed market is lost with the transaction it
      opened. */
  method RefreshMarkets<F, V, S>(conn: Connection<Books<F, S>>, settler: Settler<F, V, S>, answers: seq<Answer<V>>,
                                 failAt: Option<nat>) returns (ok: bool)
    requires conn.Idle() && (failAt.Some? ==> failAt.value < |answers|)
    modifies conn
    ensures conn.Idle() && (ok <==> failAt.None?)
    ensures ok ==> conn.durable == Turns(settler, old(conn.durable), answers)
    ensures !ok ==>
              conn.durable == Turns(settler, old(conn.durable), answers[..Min(failAt.value, ResolvedPrefix(answers))])
  {
    ghost var start := conn.durable;
    var steps := StepsOf(settler, answers, failAt);
    ok := RunBatch(conn, steps);
    EffectsAreTurns(settler, start, answers, failAt);
    if failAt.Some? {
      assert steps[failAt.value].raises;
      var n := ReleasedPrefix(steps);
      ReleasedIsResolved(settler, answers, failAt.value);
      assert steps[..n] == StepsOf(settler, answers[..n], failAt);
      EffectsAreTurns(settler, start, answers[..n], failAt);
    }
  }

  lemma ReleasedIsResolved<F, V, S>(settler: Settler<F, V, S>, answers: seq<Answer<V>>, k: nat)
    requires k < |answers|
    ensures ReleasedPrefix(StepsOf<F, V, S>(settler, answers, Some(k))) == Min(k, ResolvedPrefix(answers))
  {
    var steps := StepsOf<F, V, S>(settler, answers, Some(k));
    var n, r := ReleasedPrefix(steps), ResolvedPrefix(answers);
    assert steps[k].raises;
    assert forall i :: 0 <= i < |answers| ==> (steps[i].savepointed <==> answers[i].found.Truth?);
    assert n <= k;
  }

  // ---- periodic passes ----------------------------------------------------------------------

  /** One pass: distinct markets, each selectable in the table as the pass found it. */
  ghost predicate PeriodicPass(rows: Rows, checks: seq<Check>) {
    && (forall i, j :: 0 <= i < j < |checks| ==> checks[i].outcome.market != checks[j].outcome.market)
    && (forall i :: 0 <= i < |checks| ==>
          && Selectable(Lookup(rows, checks[i].outcome.market), checks[i].selectedAt)
          && checks[i].selectedAt <= checks[i].at && BeforeTerminal(checks[i].at))
  }

  function Flatten(passes: seq<seq<Check>>): seq<Check> {
    if passes == [] then [] else Flatten(passes[..|passes| - 1]) + passes[|passes| - 1]
  }

  /** Each pass starts from the table the passes before it left. */
  ghost predicate PeriodicPasses(rows: Rows, passes: seq<seq<Check>>) {
    forall i :: 0 <= i < |passes| ==> PeriodicPass(Replay(rows, Flatten(passes[..i])), passes[i])
  }

  lemma {:induction false} ProjectedConcat(h: seq<Check>, g: seq<Check>, market: string)
    ensures Projected(h + g, market) == Projected(h, market) + Projected(g, market)
  {
    if g == [] {
      assert h + g == h;
    } else {
      var n := |g| - 1;
      ProjectedConcat(h, g[..n], market);
      assert (h + g)[..|h + g| - 1] == h + g[..n];
    }
  }

  lemma {:induction false} ProjectedOfDistinct(checks: seq<Check>, market: string)
    requires forall i, j :: 0 <= i < j < |checks| ==> checks[i].outcome.market != checks[j].outcome.market
    ensures |Projected(checks, market)| <= 1
    ensures forall c :: c in Projected(checks, market) ==> c in checks && c.outcome.market == market
  {
    if checks != [] {
      var n := |checks| - 1;
      ProjectedOfDistinct(checks[..n], market);
      assert checks == checks[..n] + [checks[n]];
      if Projected(checks[..n], market) != [] {
        var c := Projected(checks[..n], market)[0];
        assert c in Projected(checks[..n], market);
        var i :| 0 <= i < n && checks[i] == c;
      }
    }
  }

  lemma EarlierPasses(rows: Rows, passes: seq<seq<Check>>)
    requires passes != [] && PeriodicPasses(rows, passes)
    ensures PeriodicPasses(rows, passes[..|passes| - 1])
  {
    var n := |passes| - 1;
    forall i | 0 <= i < n ensures PeriodicPass(Replay(rows, Flatten(passes[..n][..i])), passes[..n][i]) {
      assert passes[..n][..i] == passes[..i];
    }
  }

  /** One more pass over a table that this history left. */
  lemma PassExtends(rows: Rows, h: seq<Check>, g: seq<Check>, market: string)
    requires Periodic(Lookup(rows, market), Projected(h, market)) && PeriodicPass(Replay(rows, h), g)
    ensures Periodic(Lookup(rows, market), Projected(h + g, market))
  {
    ProjectedConcat(h, g, market);
    ProjectedOfDistinct(g, market);
    RowDependsOnOwnChecks(rows, h, market);
    PeriodicExtends(Lookup(rows, market), Projected(h, market), Projected(g, market));
  }

  /** Selecting at the start of a pass is as good as selecting at each check. */
  lemma {:induction false} PassesCheckWhenDue(rows: Rows, passes: seq<seq<Check>>, market: string)
    requires PeriodicPasses(rows, passes)
    ensures Periodic(Lookup(rows, market), Projected(Flatten(passes), market))
  {
    if passes != [] {
      var n := |passes| - 1;
      EarlierPasses(rows, passes);
      PassesCheckWhenDue(rows, passes[..n], market);
      PassExtends(rows, Flatten(passes[..n]), passes[n], market);
    }
  }

  lemma PeriodicExtends(row: Option<Row>, p: seq<Check>, q: seq<Check>)
    requires Periodic(row, p) && |q| <= 1
    requires q != [] ==> Selectable(RowAfter(row, p), q[0].selectedAt) && q[0].selectedAt <= q[0].at && BeforeTerminal(q[0].at)
    ensures Periodic(row, p + q)
  {
    forall i | 0 <= i < |p + q| ensures CheckedWhenDue(row, p + q, i) {
      if i < |p| {
        assert CheckedWhenDue(row, p, i) && (p + q)[..i] == p[..i];
      } else {
        assert (p + q)[..i] == p;
      }
    }
  }

  /** The retry budget over whole driver runs, for every market and any initial table: no
      failure streak among the market's checks exceeds the budget. */
  lemma RetryBudgetOverPasses(rows: Rows, passes: seq<seq<Check>>, market: string, i: nat, j: nat)
    requires PeriodicPasses(rows, passes)
    requires i <= j <= |Projected(Flatten(passes), market)|
    requires forall k :: i <= k < j ==> KindOfCheck(Projected(Flatten(passes), market)[k]) == Failing
    ensures j - i <= MAX_REFRESH_ATTEMPTS
  {
    PassesCheckWhenDue(rows, passes, market);
    FailureStreakBounded(Lookup(rows, market), Projected(Flatten(passes), market), i, j);
  }

  /** Successive checks of one market keep their distance, and only its last check can have
      made its row terminal. */
  lemma SpacingOverPasses(rows: Rows, passes: seq<seq<Check>>, market: string, i: nat)
    requires PeriodicPasses(rows, passes)
    requires i + 1 < |Projected(Flatten(passes), market)|
    ensures var p := Projected(Flatten(passes), market);
            && p[i + 1].selectedAt + MILLISECOND > p[i].at + (if p[i].outcome.status.Unavailable? then 72 else 24) * HOUR
            && RowAfter(Lookup(rows, market), p[..i + 1]).value.nextCheckAfter != Some(TERMINAL)
  {
    var row, p := Lookup(rows, market), Projected(Flatten(passes), market);
    PassesCheckWhenDue(rows, passes, market);
    ChecksAreSpaced(row, p, i);
    TerminalAbsorbs(row, p, i);
  }
}
