/** Resolution planning for one market: its winning token, the winner flags of its outcomes
    and the settlement of its trades. */
module Resolution {
  import opened Basics
  import Identity

  datatype Market = Market(
    id: string, sourceId: string, resolved: bool, winningToken: Option<string>, resolutionOutcome: Option<string>)

  /** The columns of market_outcomes that planning reads. */
  datatype Outcome = Outcome(id: int, outcomeLabel: Option<string>, token: Option<string>)

  datatype Status = Unresolved | Won | Lost | AmbiguousMarket | Unknown

  datatype Settlement = Settlement(
    status: Status, isWinningTrade: Option<bool>, winningToken: Option<string>, realizedPnl: Option<real>)

  /** Price and quantity are None when they are missing or not finite numbers. */
  datatype Trade = Trade(
    id: string, marketSourceId: string, token: Option<string>, price: Option<real>, quantity: Option<real>,
    settlement: Settlement)

  /** resolved here is what the planner claims before it looks at the outcomes. */
  datatype Truth = Truth(market: string, resolved: bool, winningToken: Option<string>, resolutionOutcome: Option<string>)

  datatype Application = Application(
    winnerOutcome: Option<int>, flags: map<int, bool>, resolved: bool, ambiguous: bool)

  // ---- the winning token ------------------------------------------------------------------

  function Stripped(s: Option<string>): string {
    if s.Some? then Identity.Strip(s.value, Identity.PythonStrip) else ""
  }

  function NonEmpty(s: Option<string>): Option<string> {
    if s == Some("") then None else s
  }

  /** Stripped text that is empty counts as no label. */
  function LabelOf(m: Market): Option<string> {
    NonEmpty(Some(Stripped(m.resolutionOutcome)))
  }

  /** Whether the outcome names this token under this label. */
  predicate Names(o: Outcome, wanted: string, token: string) {
    NonEmpty(o.token) == Some(token) && Stripped(o.outcomeLabel) == wanted
  }

  /** One entry per outcome with the label and a token, in row order. */
  function Candidates(outcomes: seq<Outcome>, wanted: string): (r: seq<string>)
    ensures forall t :: t in r <==> exists o :: o in outcomes && Names(o, wanted, t)
  {
    if outcomes == [] then []
    else
      var last := outcomes[|outcomes| - 1];
      assert outcomes == outcomes[..|outcomes| - 1] + [last];
      assert NonEmpty(last.token).Some? && Stripped(last.outcomeLabel) == wanted ==>
          Names(last, wanted, last.token.value);
      Candidates(outcomes[..|outcomes| - 1], wanted)
      + (if NonEmpty(last.token).Some? && Stripped(last.outcomeLabel) == wanted then [last.token.value] else [])
  }

  /** The token t and no other is named by the outcomes with this label. */
  ghost predicate OnlyToken(outcomes: seq<Outcome>, wanted: string, t: string) {
    && (exists o :: o in outcomes && Names(o, wanted, t))
    && (forall o, u :: o in outcomes && Names(o, wanted, u) ==> u == t)
  }

  /** Winner selection. */
  function WinnerOf(m: Market, outcomes: seq<Outcome>): Option<string> {
    if NonEmpty(m.winningToken).Some? then m.winningToken
    else if LabelOf(m).None? then None
    else
      var c := Candidates(outcomes, LabelOf(m).value);
      if c != [] && forall t :: t in c ==> t == c[0] then Some(c[0]) else None
  }

  /** A stored winner is kept. Without one, a token wins exactly when it is the one distinct
      token that the outcomes with the market's label name; the outcomes' order and
      multiplicity do not matter. */
  lemma WinnerExactlyWhen(m: Market, outcomes: seq<Outcome>, t: string)
    ensures NonEmpty(m.winningToken).Some? ==> WinnerOf(m, outcomes) == m.winningToken
    ensures NonEmpty(m.winningToken).None? ==>
              (WinnerOf(m, outcomes) == Some(t)
               <==> LabelOf(m).Some? && OnlyToken(outcomes, LabelOf(m).value, t))
  {
    if NonEmpty(m.winningToken).None? && LabelOf(m).Some? {
      var wanted := LabelOf(m).value;
      var c := Candidates(outcomes, wanted);
      if OnlyToken(outcomes, wanted, t) {
        assert t in c;
        forall u | u in c ensures u == t {
          var o :| o in outcomes && Names(o, wanted, u);
        }
        assert c[0] in c;
      }
      if WinnerOf(m, outcomes) == Some(t) {
        assert c[0] in c;
        forall o, u | o in outcomes && Names(o, wanted, u) ensures u == t { assert u in c; }
      }
    }
  }

  /** The same outcome rows in any order, with any repetition, give the same winner. */
  lemma WinnerIgnoresOrder(m: Market, a: seq<Outcome>, b: seq<Outcome>)
    requires forall o :: o in a <==> o in b
    ensures WinnerOf(m, a) == WinnerOf(m, b)
  {
    if WinnerOf(m, a).Some? {
      WinnerExactlyWhen(m, a, WinnerOf(m, a).value);
      WinnerExactlyWhen(m, b, WinnerOf(m, a).value);
    } else if WinnerOf(m, b).Some? {
      WinnerExactlyWhen(m, a, WinnerOf(m, b).value);
      WinnerExactlyWhen(m, b, WinnerOf(m, b).value);
    }
  }

  /** plan_truth_for_market up to the truth record: candidates in row order, de-duplicated with a
      set of the tokens seen. */
  method PlanTruth(m: Market, outcomes: seq<Outcome>) returns (truth: Truth)
    ensures truth == Truth(m.id, m.resolved, WinnerOf(m, outcomes), LabelOf(m))
  {
    var wanted := LabelOf(m);
    var winner := None;
    if NonEmpty(m.winningToken).Some? {
      winner := m.winningToken;
    } else if wanted.Some? {
      var candidates := Candidates(outcomes, wanted.value);
      var seen: set<string> := {};
      var deduped: seq<string> := [];
      for i := 0 to |candidates|
        invariant forall t :: t in seen <==> t in candidates[..i]
        invariant forall t :: t in deduped <==> t in candidates[..i]
        invariant NoDuplicates(deduped) && (i == 0 ==> deduped == [])
        invariant i > 0 ==> deduped != [] && deduped[0] == candidates[0]
      {
        assert candidates[..i + 1] == candidates[..i] + [candidates[i]];
        if candidates[i] !in seen {
          seen := seen + {candidates[i]};
          deduped := deduped + [candidates[i]];
        }
      }
      assert candidates[..|candidates|] == candidates;
      if |deduped| == 1 {
        winner := Some(deduped[0]);
      } else if |deduped| > 1 {
        assert deduped[1] in deduped && deduped[1] != deduped[0];
      }
    }
    truth := Truth(m.id, m.resolved, winner, wanted);
  }

  // ---- winner flags -------------------------------------------------------------------------

  predicate Holds(o: Outcome, token: string) {
    NonEmpty(o.token) == Some(token)
  }

  /** Ids of the outcomes that hold the token. */
  function Matched(outcomes: seq<Outcome>, token: string): (r: seq<int>)
    ensures forall id :: id in r <==> exists o :: o in outcomes && o.id == id && Holds(o, token)
  {
    if outcomes == [] then []
    else
      var last := outcomes[|outcomes| - 1];
      assert outcomes == outcomes[..|outcomes| - 1] + [last];
      Matched(outcomes[..|outcomes| - 1], token) + (if Holds(last, token) then [last.id] else [])
  }

  /** Flags in row order; outcomes without a token are left out. */
  function Flags(outcomes: seq<Outcome>, winner: int): map<int, bool> {
    if outcomes == [] then map[]
    else
      var last, rest := outcomes[|outcomes| - 1], Flags(outcomes[..|outcomes| - 1], winner);
      if last.id == winner then rest[last.id := true]
      else if NonEmpty(last.token).Some? then rest[last.id := false]
      else rest
  }

  /** apply_market_resolution_truth. */
  function ApplicationOf(truth: Truth, outcomes: seq<Outcome>): Application {
    if !truth.resolved || truth.winningToken.None? then Application(None, map[], false, false)
    else
      var matched := Matched(outcomes, truth.winningToken.value);
      if |matched| == 0 then Application(None, map[], true, false)
      else if |matched| > 1 then Application(None, map[], true, true)
      else Application(Some(matched[0]), Flags(outcomes, matched[0]), true, false)
  }

  ghost predicate DistinctOutcomes(outcomes: seq<Outcome>) {
    forall i, j :: 0 <= i < j < |outcomes| ==> outcomes[i].id != outcomes[j].id
  }

  ghost predicate TwoHold(outcomes: seq<Outcome>, token: string) {
    exists i, j :: 0 <= i < j < |outcomes| && Holds(outcomes[i], token) && Holds(outcomes[j], token)
  }

  lemma {:induction false} MatchedCounts(outcomes: seq<Outcome>, token: string)
    ensures |Matched(outcomes, token)| > 1 <==> TwoHold(outcomes, token)
  {
    if outcomes != [] {
      var n := |outcomes| - 1;
      MatchedCounts(outcomes[..n], token);
      if TwoHold(outcomes[..n], token) {
        var i, j :| 0 <= i < j < n && Holds(outcomes[..n][i], token) && Holds(outcomes[..n][j], token);
        assert Holds(outcomes[i], token) && Holds(outcomes[j], token);
      }
      if Holds(outcomes[n], token) && Matched(outcomes[..n], token) != [] {
        assert Matched(outcomes[..n], token)[0] in Matched(outcomes[..n], token);
        var i :| 0 <= i < n && Holds(outcomes[..n][i], token);
        assert Holds(outcomes[i], token);
      }
      if TwoHold(outcomes, token) {
        var i, j :| 0 <= i < j < |outcomes| && Holds(outcomes[i], token) && Holds(outcomes[j], token);
        assert outcomes[..n][i] == outcomes[i];
        assert outcomes[i].id in Matched(outcomes[..n], token);
        if j < n {
          assert outcomes[..n][j] == outcomes[j];
        }
      }
    }
  }

  /** A plan is ambiguous exactly when two outcome rows hold the winning token; several
      distinct tokens under the label are not ambiguity but the absence of a winner. */
  lemma AmbiguousExactlyWhen(truth: Truth, outcomes: seq<Outcome>)
    ensures ApplicationOf(truth, outcomes).ambiguous
            <==> truth.resolved && truth.winningToken.Some? && TwoHold(outcomes, truth.winningToken.value)
    ensures ApplicationOf(truth, outcomes).resolved <==> truth.resolved && truth.winningToken.Some?
  {
    if truth.winningToken.Some? {
      MatchedCounts(outcomes, truth.winningToken.value);
    }
  }

  lemma {:induction false} FlagsAre(outcomes: seq<Outcome>, winner: int, o: Outcome)
    requires DistinctOutcomes(outcomes) && o in outcomes
    ensures o.id == winner ==> o.id in Flags(outcomes, winner) && Flags(outcomes, winner)[o.id]
    ensures o.id != winner && NonEmpty(o.token).Some? ==>
              o.id in Flags(outcomes, winner) && !Flags(outcomes, winner)[o.id]
    ensures o.id != winner && NonEmpty(o.token).None? ==> o.id !in Flags(outcomes, winner)
  {
    var n := |outcomes| - 1;
    if o != outcomes[n] {
      var i :| 0 <= i < n && outcomes[i] == o;
      assert outcomes[..n][i] == o;
      FlagsAre(outcomes[..n], winner, o);
    } else {
      FlagsOfOthers(outcomes[..n], winner, o.id);
    }
  }

  lemma {:induction false} FlagsOfOthers(outcomes: seq<Outcome>, winner: int, id: int)
    requires forall i :: 0 <= i < |outcomes| ==> outcomes[i].id != id
    ensures id !in Flags(outcomes, winner)
  {
    if outcomes != [] {
      FlagsOfOthers(outcomes[..|outcomes| - 1], winner, id);
    }
  }

  /** A marked winner is the only outcome flagged as winner: it alone holds the winning token,
      every other outcome with a token is flagged as loser, and outcomes without a token keep
      their flag. */
  lemma MarkedWinnerIsUnique(truth: Truth, outcomes: seq<Outcome>, o: Outcome)
    requires DistinctOutcomes(outcomes) && o in outcomes
    requires ApplicationOf(truth, outcomes).winnerOutcome.Some?
    ensures var flags := ApplicationOf(truth, outcomes).flags;
            && (o.id in flags <==> NonEmpty(o.token).Some?)
            && (o.id in flags ==> (flags[o.id] <==> Holds(o, truth.winningToken.value)))
  {
    var token := truth.winningToken.value;
    var matched := Matched(outcomes, token);
    assert matched[0] in matched;
    var w :| w in outcomes && w.id == matched[0] && Holds(w, token);
    if Holds(o, token) {
      assert o.id in matched;
    }
    if o.id == w.id {
      var i :| 0 <= i < |outcomes| && outcomes[i] == o;
      var j :| 0 <= j < |outcomes| && outcomes[j] == w;
      assert i == j;
    }
    FlagsAre(outcomes, w.id, o);
  }

  // ---- settlements ----------------------------------------------------------------------------

  /** settle_source_trade_against_truth. */
  function Settle(t: Trade, truth: Truth): Settlement {
    if !truth.resolved || truth.winningToken.None? then Settlement(Unresolved, None, None, None)
    else if NonEmpty(Some(Stripped(t.token))).None? then Settlement(Unknown, None, truth.winningToken, None)
    else
      var priced := t.price.Some? && t.quantity.Some?;
      if Stripped(t.token) == truth.winningToken.value then
        Settlement(Won, Some(true), truth.winningToken,
                   if priced then Some((1.0 - t.price.value) * t.quantity.value) else None)
      else
        Settlement(Lost, Some(false), truth.winningToken,
                   if priced then Some(-t.price.value * t.quantity.value) else None)
  }

  /** The plan for one trade of a market; None leaves the trade alone. */
  function PlanFor(t: Trade, truth: Truth, app: Application): Option<Settlement> {
    if app.ambiguous then Some(Settlement(AmbiguousMarket, None, truth.winningToken, None))
    else if !truth.resolved || truth.winningToken.None? then None
    else Some(Settle(t, truth))
  }

  /** Ambiguity reaches every trade and leaves no profit or loss; a trade is settled as won or
      lost only against a winner that no second outcome row shares; and settled plans are
      never in the state that selects trades for planning. */
  lemma PlansAreSafe(t: Trade, truth: Truth, outcomes: seq<Outcome>)
    ensures var app := ApplicationOf(truth, outcomes);
            var plan := PlanFor(t, truth, app);
            && (app.ambiguous ==> plan == Some(Settlement(AmbiguousMarket, None, truth.winningToken, None)))
            && (plan.None? <==> !truth.resolved || truth.winningToken.None?)
            && (plan.Some? ==> !plan.value.status.Unresolved?)
            && (plan.Some? && (plan.value.status.Won? || plan.value.status.Lost?) ==>
                  truth.winningToken.Some? && !TwoHold(outcomes, truth.winningToken.value))
            && (plan.Some? && plan.value.realizedPnl.Some? ==> plan.value.isWinningTrade.Some?)
  {
    AmbiguousExactlyWhen(truth, outcomes);
  }
}
