/** The retry budget of the market refresh (_upsert_bookkeeping and the periodic selection). */
module Refresh {
  import opened Basics

  const MAX_REFRESH_ATTEMPTS := 3
  // Instants are microseconds since the epoch.
  const HOUR := 3_600_000_000
  const TERMINAL := 253_402_300_799_000_000 // 9999-12-31T23:59:59+00:00

  /** last_status: the states of the provider check, NULL or empty text, and other text. */
  datatype Status =
    | Blank | Resolved | Unresolved | Unavailable | ProviderUnavailable | RoutingHttpError
    | MalformedPayload | Ambiguous | MissingWinningToken | ConflictStatus | Unrecognised

  datatype ErrorTag = NoError | Conflict | Detail(text: string)

  datatype Row = Row(
    lastCheckedAt: int, lastStatus: Status, lastError: ErrorTag, resolvedAt: Option<int>,
    attemptCount: nat, nextCheckAfter: Option<int>)

  datatype Outcome = Outcome(market: string, status: Status, error: ErrorTag, resolvedAt: Option<int>)

  /** REFRESH_FAILURE_STATUSES. */
  predicate IsFailureStatus(s: Status) {
    s.Unavailable? || s.ProviderUnavailable? || s.RoutingHttpError? || s.MalformedPayload? || s.Ambiguous?
    || s.MissingWinningToken? || s.ConflictStatus?
  }

  predicate IsFailure(s: Status, e: ErrorTag) {
    IsFailureStatus(s) || (s.Resolved? && e.Conflict?)
  }

  predicate IsCleanResolution(s: Status, e: ErrorTag) {
    s.Resolved? && !e.Conflict?
  }

  // ---- one upsert -----------------------------------------------------------------------

  function NextAttempts(prior: Option<Row>, o: Outcome): nat {
    var priorAttempts := if prior.Some? then prior.value.attemptCount else 0;
    var priorFailure := prior.Some? && IsFailure(prior.value.lastStatus, prior.value.lastError);
    if o.status.Unresolved? then
      if prior.Some? && prior.value.lastStatus.Unresolved? then priorAttempts + 1 else 1
    else if IsFailure(o.status, o.error) then
      if priorFailure then Min(MAX_REFRESH_ATTEMPTS, priorAttempts + 1) else 1
    else 1
  }

  function NextCheckAfter(o: Outcome, attempts: nat, now: int): int {
    if IsCleanResolution(o.status, o.error) then TERMINAL
    else if o.status.Unresolved? then now + 24 * HOUR
    else if o.status.Unavailable? then
      if attempts >= MAX_REFRESH_ATTEMPTS then TERMINAL else now + 72 * HOUR
    else
      if attempts >= MAX_REFRESH_ATTEMPTS then TERMINAL else now + 24 * HOUR
  }

  function NextRow(prior: Option<Row>, o: Outcome, now: int): Row {
    var attempts := NextAttempts(prior, o);
    Row(now, o.status, o.error, o.resolvedAt, attempts, Some(NextCheckAfter(o, attempts, now)))
  }

  function Lookup(rows: map<string, Row>, market: string): Option<Row> {
    if market in rows then Some(rows[market]) else None
  }

  /** The specialist_market_refresh_state table. */
  class RefreshTable {
    var rows: map<string, Row>

    constructor (initial: map<string, Row>)
      ensures rows == initial
    {
      rows := initial;
    }

    /** _upsert_bookkeeping: only the outcome's own row changes. */
    method UpsertBookkeeping(o: Outcome, now: int)
      modifies this
      ensures rows == old(rows)[o.market := NextRow(Lookup(old(rows), o.market), o, now)]
    {
      var priorStatus, priorError, priorAttempts := Blank, NoError, 0;
      if o.market in rows {
        var prior := rows[o.market];
        priorStatus, priorError, priorAttempts := prior.lastStatus, prior.lastError, prior.attemptCount;
      }
      var currentFailure := IsFailureStatus(o.status) || (o.status.Resolved? && o.error.Conflict?);
      var priorFailure := IsFailureStatus(priorStatus) || (priorStatus.Resolved? && priorError.Conflict?);
      var attempts := 1;
      if o.status.Unresolved? {
        attempts := if priorStatus.Unresolved? then priorAttempts + 1 else 1;
      } else if currentFailure {
        attempts := if priorFailure then Min(MAX_REFRESH_ATTEMPTS, priorAttempts + 1) else 1;
      }
      var nextCheckAfter;
      if o.status.Resolved? && !o.error.Conflict? {
        nextCheckAfter := TERMINAL;
      } else if o.status.Unresolved? {
        nextCheckAfter := now + 24 * HOUR;
      } else if o.status.Unavailable? {
        nextCheckAfter := if attempts >= MAX_REFRESH_ATTEMPTS then TERMINAL else now + 72 * HOUR;
      } else {
        nextCheckAfter := if attempts >= MAX_REFRESH_ATTEMPTS then TERMINAL else now + 24 * HOUR;
      }
      rows := rows[o.market := Row(now, o.status, o.error, o.resolvedAt, attempts, Some(nextCheckAfter))];
    }
  }

  // ---- histories ------------------------------------------------------------------------------

  /** One recorded check: when its market was selected, and when its row was written. */
  datatype Check = Check(outcome: Outcome, selectedAt: int, at: int)

  function Replay(rows: map<string, Row>, h: seq<Check>): map<string, Row> {
    if h == [] then rows
    else
      var before, c := Replay(rows, h[..|h| - 1]), h[|h| - 1];
      before[c.outcome.market := NextRow(Lookup(before, c.outcome.market), c.outcome, c.at)]
  }

  /** The checks of one market. */
  function Projected(h: seq<Check>, market: string): seq<Check> {
    if h == [] then []
    else
      var n := |h| - 1;
      Projected(h[..n], market) + (if h[n].outcome.market == market then [h[n]] else [])
  }

  /** The row that a market's own checks produce from its initial row. */
  function RowAfter(row: Option<Row>, p: seq<Check>): Option<Row> {
    if p == [] then row
    else Some(NextRow(RowAfter(row, p[..|p| - 1]), p[|p| - 1].outcome, p[|p| - 1].at))
  }

  lemma RowAfterSnoc(row: Option<Row>, p: seq<Check>, c: Check)
    ensures RowAfter(row, p + [c]) == Some(NextRow(RowAfter(row, p), c.outcome, c.at))
  {
    assert (p + [c])[..|p|] == p && (p + [c])[|p|] == c;
  }

  /** However checks of many markets interleave, a market's row depends on its own alone. */
  lemma {:induction false} RowDependsOnOwnChecks(rows: map<string, Row>, h: seq<Check>, market: string)
    ensures Lookup(Replay(rows, h), market) == RowAfter(Lookup(rows, market), Projected(h, market))
  {
    if h != [] {
      var n := |h| - 1;
      RowDependsOnOwnChecks(rows, h[..n], market);
      if h[n].outcome.market == market {
        var p := Projected(h[..n], market);
        RowAfterSnoc(Lookup(rows, market), p, h[n]);
      } else {
        assert Projected(h, market) == Projected(h[..n], market);
      }
    }
  }

  datatype Kind = Pending | Failing | Settled

  function KindOf(s: Status, e: ErrorTag): Kind {
    if s.Unresolved? then Pending else if IsFailure(s, e) then Failing else Settled
  }

  function KindOfCheck(c: Check): Kind { KindOf(c.outcome.status, c.outcome.error) }

  /** How many of the last checks are of this kind without interruption. */
  function TrailingRun(p: seq<Check>, kind: Kind): (n: nat)
    ensures n <= |p|
    ensures forall i :: |p| - n <= i < |p| ==> KindOfCheck(p[i]) == kind
    ensures n < |p| ==> KindOfCheck(p[|p| - 1 - n]) != kind
  {
    if p == [] || KindOfCheck(p[|p| - 1]) != kind then 0 else 1 + TrailingRun(p[..|p| - 1], kind)
  }

  /** What the initial row contributes: its count, when the run reaches back to it. */
  function Carried(row: Option<Row>, p: seq<Check>, kind: Kind): nat {
    if TrailingRun(p, kind) == |p| && row.Some? && KindOf(row.value.lastStatus, row.value.lastError) == kind
    then row.value.attemptCount else 0
  }

  /** Closed form of attempt_count after any history, resolved-with-conflict included. */
  lemma {:induction false} AttemptsClosedForm(row: Option<Row>, p: seq<Check>)
    requires p != []
    ensures var kind := KindOfCheck(p[|p| - 1]);
            RowAfter(row, p).value.attemptCount
            == match kind
               case Pending => Carried(row, p, kind) + TrailingRun(p, kind)
               case Failing => Min(MAX_REFRESH_ATTEMPTS, Carried(row, p, kind) + TrailingRun(p, kind))
               case Settled => 1
  {
    var n := |p| - 1;
    if n > 0 {
      AttemptsClosedForm(row, p[..n]);
      LastRow(row, p[..n]);
    }
  }

  /** The stored status, error and times are those of the last check. */
  lemma LastRow(row: Option<Row>, p: seq<Check>)
    requires p != []
    ensures var r, c := RowAfter(row, p).value, p[|p| - 1];
            && r.lastStatus == c.outcome.status && r.lastError == c.outcome.error
            && r.lastCheckedAt == c.at && r.resolvedAt == c.outcome.resolvedAt
  {
  }

  /** The same over a whole table and an interleaved history: for a market without an initial
      row, the count is the length of its own trailing run, capped for failures. */
  lemma AttemptsOfInterleavedHistory(rows: map<string, Row>, h: seq<Check>, market: string)
    requires market !in rows && Projected(h, market) != []
    ensures market in Replay(rows, h)
    ensures var p := Projected(h, market);
            var kind := KindOfCheck(p[|p| - 1]);
            Replay(rows, h)[market].attemptCount
            == match kind
               case Pending => TrailingRun(p, kind)
               case Failing => Min(MAX_REFRESH_ATTEMPTS, TrailingRun(p, kind))
               case Settled => 1
  {
    RowDependsOnOwnChecks(rows, h, market);
    AttemptsClosedForm(None, Projected(h, market));
  }

  // ---- periodic selection ------------------------------------------------------------------------

  /** The status clause of select_markets_for_refresh. */
  predicate Eligible(r: Row) {
    || r.lastStatus.Blank? || r.lastStatus.Unresolved?
    || (r.lastStatus.Resolved? && (!r.lastError.Conflict? || r.attemptCount < MAX_REFRESH_ATTEMPTS))
    || (IsFailureStatus(r.lastStatus) && !r.lastStatus.ConflictStatus? && r.attemptCount < MAX_REFRESH_ATTEMPTS)
  }

  const MILLISECOND := 1_000

  /** The resolution of SQLite's julianday, in whole milliseconds. */
  function Julian(t: int): int {
    (t + MILLISECOND / 2) / MILLISECOND
  }

  predicate Due(r: Row, now: int) {
    r.nextCheckAfter.None? || Julian(r.nextCheckAfter.value) <= Julian(now)
  }

  /** What a periodic scan requires of a market's row. Further clauses on source_trades only
      narrow the selection; an exact market selector bypasses this test. */
  predicate Selectable(row: Option<Row>, now: int) {
    row.Some? ==> Eligible(row.value) && Due(row.value, now)
  }

  /** A clock reading early enough that every retry date lies before the terminal date. */
  predicate BeforeTerminal(now: int) {
    now + 72 * HOUR < TERMINAL
  }

  /** Every check of the market was made when its row at that time was selectable. */
  ghost predicate Periodic(row: Option<Row>, p: seq<Check>) {
    forall i :: 0 <= i < |p| ==> CheckedWhenDue(row, p, i)
  }

  ghost predicate CheckedWhenDue(row: Option<Row>, p: seq<Check>, i: nat)
    requires i < |p|
  {
    Selectable(RowAfter(row, p[..i]), p[i].selectedAt) && p[i].selectedAt <= p[i].at && BeforeTerminal(p[i].at)
  }

  /** Terminal rows arise exactly from a clean resolution or an exhausted failure streak. */
  lemma TerminalExactlyWhen(row: Option<Row>, p: seq<Check>)
    requires p != [] && BeforeTerminal(p[|p| - 1].at)
    ensures var c, r := p[|p| - 1], RowAfter(row, p).value;
            r.nextCheckAfter == Some(TERMINAL)
            <==> || IsCleanResolution(c.outcome.status, c.outcome.error)
                 || (KindOfCheck(c) == Failing
                     && Carried(row, p, Failing) + TrailingRun(p, Failing) >= MAX_REFRESH_ATTEMPTS)
  {
    AttemptsClosedForm(row, p);
  }

  /** A terminal row absorbs: no later periodic check of the market exists. */
  lemma TerminalAbsorbs(row: Option<Row>, p: seq<Check>, i: nat)
    requires Periodic(row, p) && i < |p|
    ensures RowAfter(row, p[..i + 1]).value.nextCheckAfter == Some(TERMINAL) ==> i + 1 == |p|
  {
    if i + 1 < |p| {
      assert CheckedWhenDue(row, p, i + 1);
    }
  }

  /** Two successive periodic checks of a market are at least 24 hours apart, 72 after an
      unavailable market, less what rounding to a millisecond can take. */
  lemma ChecksAreSpaced(row: Option<Row>, p: seq<Check>, i: nat)
    requires Periodic(row, p) && i + 1 < |p|
    ensures p[i + 1].selectedAt + MILLISECOND > p[i].at + 24 * HOUR
    ensures p[i].outcome.status.Unavailable? ==> p[i + 1].selectedAt + MILLISECOND > p[i].at + 72 * HOUR
  {
    assert CheckedWhenDue(row, p, i) && CheckedWhenDue(row, p, i + 1);
    assert p[..i + 1][..i] == p[..i];
    var r := RowAfter(row, p[..i + 1]).value;
    assert r.nextCheckAfter == Some(NextCheckAfter(p[i].outcome, r.attemptCount, p[i].at));
  }

  /** No failure streak of periodic checks is longer than the budget, whatever row the market
      started from. */
  lemma FailureStreakBounded(row: Option<Row>, p: seq<Check>, i: nat, j: nat)
    requires Periodic(row, p) && i <= j <= |p|
    requires forall k :: i <= k < j ==> KindOfCheck(p[k]) == Failing
    ensures j - i <= MAX_REFRESH_ATTEMPTS
  {
    if j - i > MAX_REFRESH_ATTEMPTS {
      var n := i + MAX_REFRESH_ATTEMPTS;
      var q := p[..n];
      assert forall k :: i <= k < n ==> KindOfCheck(q[k]) == Failing;
      assert TrailingRun(q, Failing) >= MAX_REFRESH_ATTEMPTS;
      assert CheckedWhenDue(row, p, n - 1);
      TerminalExactlyWhen(row, q);
      TerminalAbsorbs(row, p, n - 1);
    }
  }

  // ---- when a market comes up again ---------------------------------------------------------------

  /** Failures are all recorded states but unresolved, a clean resolution, blank and unknown text. */
  lemma FailingMeans(c: Check)
    ensures KindOfCheck(c) == Failing
            <==> && !c.outcome.status.Blank? && !c.outcome.status.Unresolved? && !c.outcome.status.Unrecognised?
                 && (c.outcome.status.Resolved? ==> c.outcome.error == Conflict)
    ensures KindOfCheck(c) == Pending <==> c.outcome.status.Unresolved?
  {
  }

  /** The last check ends the periodic ones: a clean resolution, or the failure after which three
      failures in a row are recorded, counting those of the initial row. */
  predicate Final(row: Option<Row>, p: seq<Check>)
    requires p != []
  {
    var c := p[|p| - 1];
    || (c.outcome.status.Resolved? && c.outcome.error != Conflict)
    || (KindOfCheck(c) == Failing && Carried(row, p, Failing) + TrailingRun(p, Failing) >= 3)
  }

  /** Hours until a market comes up again. */
  function Wait(c: Check): int {
    if c.outcome.status.Unavailable? then 72 else 24
  }

  /** A market whose last check was not final is due again exactly from 24 hours after it on, 72
      after an unavailable market. */
  lemma DueExactlyWhen(row: Option<Row>, p: seq<Check>, t: int)
    requires p != [] && !Final(row, p)
    ensures Due(RowAfter(row, p).value, t) <==> Julian(t) >= Julian(p[|p| - 1].at + Wait(p[|p| - 1]) * 3_600_000_000)
  {
    AttemptsClosedForm(row, p);
    FailingMeans(p[|p| - 1]);
  }

  /** Before the terminal date it is selectable exactly then, unless its status is one that the
      selection does not know: the bare conflict status, which no check answers with, or unknown
      text. A market whose last check was final is never selectable again. */
  lemma SelectableExactlyWhen(row: Option<Row>, p: seq<Check>, t: int)
    requires p != [] && Julian(t) < Julian(TERMINAL)
    ensures var c := p[|p| - 1];
            Selectable(RowAfter(row, p), t)
            <==> && !Final(row, p) && !c.outcome.status.ConflictStatus? && !c.outcome.status.Unrecognised?
                 && Julian(t) >= Julian(c.at + Wait(c) * 3_600_000_000)
  {
    AttemptsClosedForm(row, p);
    FailingMeans(p[|p| - 1]);
    if !Final(row, p) {
      DueExactlyWhen(row, p, t);
    }
    LastRow(row, p);
  }

  /** An exhausted failure streak is final without regard to dates: no clock selects the market, not
      even one past the terminal date. */
  lemma ExhaustedIsNeverSelected(row: Option<Row>, p: seq<Check>, t: int)
    requires p != [] && KindOfCheck(p[|p| - 1]) == Failing && Final(row, p)
    ensures !Selectable(RowAfter(row, p), t)
  {
    AttemptsClosedForm(row, p);
    FailingMeans(p[|p| - 1]);
    LastRow(row, p);
  }

  /** The status clause follows the classes of the bookkeeping: a failure is eligible exactly below
      three attempts and unless it is the bare conflict status, anything else exactly when the
      selection knows its text. */
  lemma EligibleExactlyWhen(c: Check, r: Row)
    requires r.lastStatus == c.outcome.status && r.lastError == c.outcome.error
    ensures Eligible(r) <==> if KindOfCheck(c) == Failing then r.attemptCount < 3 && !r.lastStatus.ConflictStatus?
                             else !r.lastStatus.Unrecognised?
  {
  }

  /** Dates are compared as whole milliseconds, rounded to the nearest and up from the middle. */
  lemma JulianIsNearest(t: int, j: int)
    ensures j == Julian(t) <==> -500 < j * 1_000 - t <= 500
  {
  }

  /** 9999-12-31T23:59:59 as days since the epoch. */
  lemma TerminalIsTheLastDay()
    ensures TERMINAL == (2_932_896 * 86_400 + 86_399) * 1_000_000
  {
  }

  /** A market that was never recorded is selectable at any time, and so is one recorded without a
      status and without a date. */
  lemma UnrecordedIsSelectable(row: Option<Row>, t: int)
    requires row.Some? ==> row.value.lastStatus.Blank? && row.value.nextCheckAfter.None?
    ensures Selectable(row, t)
  {
  }

  /** So progress is possible: a pass at any such time may check the market, and the checks of the
      market stay periodic. */
  lemma PassMayCheck(row: Option<Row>, p: seq<Check>, c: Check)
    requires Periodic(row, p) && p != [] && !Final(row, p)
    requires !p[|p| - 1].outcome.status.ConflictStatus? && !p[|p| - 1].outcome.status.Unrecognised?
    requires c.selectedAt >= p[|p| - 1].at + Wait(p[|p| - 1]) * 3_600_000_000
    requires c.selectedAt <= c.at && BeforeTerminal(c.at)
    ensures Periodic(row, p + [c])
  {
    SelectableExactlyWhen(row, p, c.selectedAt);
    forall i | 0 <= i < |p + [c]| ensures CheckedWhenDue(row, p + [c], i) {
      assert (p + [c])[..i] == p[..i];
      if i < |p| {
        assert CheckedWhenDue(row, p, i);
      } else {
        assert p[..i] == p;
      }
    }
  }
}
