/** The one-off provenance repair of paper decisions (repair): validated on read-only
    connections, written on another behind guards, all or nothing. */
module Repair {
  import opened Basics

  const MIN_LIMIT := 1
  const MAX_LIMIT := 3

  datatype Signal = BridgeEvidenceIncomplete | OtherSignal(text: string)

  datatype Cell = Null | Int(n: int) | Text(s: string) | SignalText(signal: Signal)

  datatype Column = Id | CandidateId | PriceSnapshotId | TradeScoreDecisionId | SignalReason | Extra(name: string)

  /** A paper_signal_decisions row; the columns the repair does not name are in rest. */
  datatype Paper = Paper(
    id: int, candidate: Option<int>, snapshot: Option<string>, decision: Option<int>, signal: Signal,
    rest: map<string, Cell>)

  /** A trade_copyability_decisions row. */
  datatype Tc = Tc(id: int, candidate: Option<int>, snapshot: Option<string>)

  /** The database; others holds the contents of the other fingerprinted tables. */
  datatype Db = Db(papers: seq<Paper>, tcs: seq<Tc>, others: seq<string>)

  /** The integer primary key of paper_signal_decisions; tables are listed by it. */
  ghost predicate Keyed(papers: seq<Paper>) {
    forall i, j :: 0 <= i < j < |papers| ==> papers[i].id < papers[j].id
  }

  // ---- selection and validation --------------------------------------------------------

  predicate InBacklog(p: Paper) {
    p.decision.None? && p.signal.BridgeEvidenceIncomplete?
  }

  /** Bridge rows without a decision, in id order. */
  function Backlog(papers: seq<Paper>): (r: seq<Paper>)
    ensures forall p :: p in r <==> p in papers && InBacklog(p)
  {
    if papers == [] then []
    else
      var n := |papers| - 1;
      assert papers == papers[..n] + [papers[n]];
      Backlog(papers[..n]) + (if InBacklog(papers[n]) then [papers[n]] else [])
  }

  function Selected(papers: seq<Paper>, limit: nat): seq<Paper> {
    Take(limit, Backlog(papers))
  }

  /** The row has no decision although a bridge left it, for want of evidence. */
  ghost predicate Lacks(p: Paper) {
    p.decision == None && p.signal == BridgeEvidenceIncomplete
  }

  lemma {:induction false} BacklogIsKeyed(papers: seq<Paper>)
    requires Keyed(papers)
    ensures Keyed(Backlog(papers))
  {
    if papers != [] {
      var n := |papers| - 1;
      BacklogIsKeyed(papers[..n]);
      assert forall p :: p in papers[..n] ==> p.id < papers[n].id;
      assert forall p :: p in Backlog(papers[..n]) ==> p.id < papers[n].id;
    }
  }

  lemma TakeById(b: seq<Paper>, limit: nat, p: Paper)
    requires Keyed(b) && p in b
    ensures p in Take(limit, b) <==> |set q | q in b && q.id < p.id| < limit
  {
    var k :| 0 <= k < |b| && b[k] == p;
    SmallerIds(b, k);
    var chosen := Take(limit, b);
    assert k < |chosen| ==> chosen[k] == p;
    if p in chosen {
      var j :| 0 <= j < |chosen| && chosen[j] == p;
      assert b[j] == p;
    }
  }

  /** The selection holds, in id order, exactly the lacking rows with fewer than limit lacking rows
      of smaller id. */
  lemma SelectedExactlyWhen(papers: seq<Paper>, limit: nat, p: Paper)
    requires Keyed(papers)
    ensures Keyed(Selected(papers, limit)) && |Selected(papers, limit)| <= limit
    ensures p in Selected(papers, limit)
            <==> p in papers && Lacks(p) && |set q | q in papers && Lacks(q) && q.id < p.id| < limit
  {
    var b := Backlog(papers);
    BacklogIsKeyed(papers);
    if p in b {
      TakeById(b, limit, p);
      var smaller, ahead := (set q | q in papers && Lacks(q) && q.id < p.id), (set q | q in b && q.id < p.id);
      assert smaller == ahead;
    }
  }

  lemma SmallerIds(b: seq<Paper>, k: nat)
    requires Keyed(b) && k < |b|
    ensures |set q | q in b && q.id < b[k].id| == k
  {
    var smaller := set q | q in b && q.id < b[k].id;
    forall q ensures q in smaller <==> q in b[..k] {
      if q in smaller {
        var i :| 0 <= i < |b| && b[i] == q;
        assert b[..k][i] == q;
      }
      if q in b[..k] {
        var i :| 0 <= i < k && b[..k][i] == q;
        assert b[i] == q;
      }
    }
    var init := set q | q in b[..k];
    assert smaller == init;
    SizeOfElements(b[..k]);
  }

  datatype Reason = ExactMatch | CandidateMissing | SnapshotMissing | NoMatch | MultipleMatches

  datatype Verdict = Verdict(
    paper: int, candidate: Option<int>, snapshot: Option<string>, matched: Option<int>, reason: Reason)

  /** Ids of the decisions of this candidate and snapshot. */
  function Matches(tcs: seq<Tc>, candidate: int, snapshot: string): seq<int> {
    if tcs == [] then []
    else
      var n := |tcs| - 1;
      Matches(tcs[..n], candidate, snapshot)
      + (if tcs[n].candidate == Some(candidate) && tcs[n].snapshot == Some(snapshot) then [tcs[n].id] else [])
  }

  /** _find_matching_tc for one selected row. */
  function VerdictOf(p: Paper, tcs: seq<Tc>): Verdict {
    if p.candidate.None? then Verdict(p.id, p.candidate, p.snapshot, None, CandidateMissing)
    else if p.snapshot.None? then Verdict(p.id, p.candidate, p.snapshot, None, SnapshotMissing)
    else
      var ids := Matches(tcs, p.candidate.value, p.snapshot.value);
      if |ids| == 0 then Verdict(p.id, p.candidate, p.snapshot, None, NoMatch)
      else if |ids| > 1 then Verdict(p.id, p.candidate, p.snapshot, None, MultipleMatches)
      else Verdict(p.id, p.candidate, p.snapshot, Some(ids[0]), ExactMatch)
  }

  /** Why a row is skipped, or not. */
  lemma ReasonExactlyWhen(p: Paper, tcs: seq<Tc>)
    ensures var v := VerdictOf(p, tcs);
            && v.paper == p.id && v.candidate == p.candidate && v.snapshot == p.snapshot
            && (v.reason == CandidateMissing <==> p.candidate.None?)
            && (v.reason == SnapshotMissing <==> p.candidate.Some? && p.snapshot.None?)
            && (v.reason == NoMatch <==>
                p.candidate.Some? && p.snapshot.Some? && forall k :: 0 <= k < |tcs| ==> !Owns(tcs[k], p))
            && (v.reason == ExactMatch <==> exists k :: 0 <= k < |tcs| && IsOnlyOwner(tcs, p, k))
  {
    if p.candidate.Some? && p.snapshot.Some? {
      MatchesAre(tcs, p);
    }
  }

  predicate Owns(tc: Tc, p: Paper) {
    p.candidate.Some? && p.snapshot.Some? && tc.candidate == p.candidate && tc.snapshot == p.snapshot
  }

  ghost predicate NoOwner(tcs: seq<Tc>, p: Paper) {
    forall k :: 0 <= k < |tcs| ==> !Owns(tcs[k], p)
  }

  /** The ids say whether there is no owner, one, or several. */
  ghost predicate IdsOf(ids: seq<int>, tcs: seq<Tc>, p: Paper) {
    && (|ids| == 0 <==> NoOwner(tcs, p))
    && (|ids| == 1 <==> exists k :: 0 <= k < |tcs| && IsOnlyOwner(tcs, p, k))
    && (forall k :: 0 <= k < |tcs| && IsOnlyOwner(tcs, p, k) ==> ids == [tcs[k].id])
  }

  lemma IdsOfOther(ids: seq<int>, init: seq<Tc>, last: Tc, p: Paper)
    requires IdsOf(ids, init, p) && !Owns(last, p)
    ensures IdsOf(ids, init + [last], p)
  {
    var tcs := init + [last];
    forall k | 0 <= k < |init| ensures IsOnlyOwner(tcs, p, k) <==> IsOnlyOwner(init, p, k) {
      OwnerOfPrefix(init, last, p, k);
    }
    assert NoOwner(tcs, p) <==> NoOwner(init, p) by {
      assert forall k :: 0 <= k < |init| ==> tcs[k] == init[k];
    }
    if k :| 0 <= k < |init| && IsOnlyOwner(init, p, k) {
      assert IsOnlyOwner(tcs, p, k);
    }
  }

  lemma OwnerOfPrefix(init: seq<Tc>, last: Tc, p: Paper, k: nat)
    requires k < |init| && !Owns(last, p)
    ensures IsOnlyOwner(init + [last], p, k) <==> IsOnlyOwner(init, p, k)
  {
    assert forall j :: 0 <= j < |init| ==> (init + [last])[j] == init[j];
  }

  lemma IdsOfOwner(ids: seq<int>, init: seq<Tc>, last: Tc, p: Paper)
    requires IdsOf(ids, init, p) && Owns(last, p)
    ensures IdsOf(ids + [last.id], init + [last], p)
  {
    var tcs, n := init + [last], |init|;
    assert tcs[n] == last;
    assert forall k :: 0 <= k < n ==> tcs[k] == init[k];
    if NoOwner(init, p) {
      assert IsOnlyOwner(tcs, p, n);
    } else {
      var k :| 0 <= k < n && Owns(init[k], p);
      assert Owns(tcs[k], p);
      assert forall j :: 0 <= j < |tcs| ==> !IsOnlyOwner(tcs, p, j);
    }
  }

  lemma {:induction false} MatchesAre(tcs: seq<Tc>, p: Paper)
    requires p.candidate.Some? && p.snapshot.Some?
    ensures IdsOf(Matches(tcs, p.candidate.value, p.snapshot.value), tcs, p)
  {
    if tcs != [] {
      var init, last := tcs[..|tcs| - 1], tcs[|tcs| - 1];
      var ids := Matches(init, p.candidate.value, p.snapshot.value);
      MatchesAre(init, p);
      assert init + [last] == tcs;
      if Owns(last, p) {
        IdsOfOwner(ids, init, last, p);
      } else {
        IdsOfOther(ids, init, last, p);
      }
    }
  }

  ghost predicate IsOnlyOwner(tcs: seq<Tc>, p: Paper, k: nat)
    requires k < |tcs|
  {
    Owns(tcs[k], p) && forall j :: 0 <= j < |tcs| && Owns(tcs[j], p) ==> j == k
  }

  /** A row is repairable exactly when one decision alone has its candidate and snapshot; it is
      then the decision named by the verdict. */
  lemma VerdictExactlyWhen(p: Paper, tcs: seq<Tc>)
    ensures VerdictOf(p, tcs).matched.Some? <==> exists k :: 0 <= k < |tcs| && IsOnlyOwner(tcs, p, k)
    ensures forall k :: 0 <= k < |tcs| && IsOnlyOwner(tcs, p, k) ==> VerdictOf(p, tcs).matched == Some(tcs[k].id)
  {
    if p.candidate.Some? && p.snapshot.Some? {
      MatchesAre(tcs, p);
    }
  }

  /** Each selected row is validated on a fresh read-only connection; tcsAt gives the table
      that connection finds. */
  function Verdicts(selected: seq<Paper>, tcsAt: nat -> seq<Tc>): seq<Verdict> {
    seq(|selected|, i requires 0 <= i < |selected| => VerdictOf(selected[i], tcsAt(i)))
  }

  ghost predicate AllMatched(vs: seq<Verdict>) {
    forall i :: 0 <= i < |vs| ==> vs[i].matched.Some?
  }

  // ---- the guarded update ---------------------------------------------------------------------

  /** The WHERE clause of the update. */
  predicate Hit(p: Paper, v: Verdict) {
    && p.id == v.paper && p.decision.None?
    && v.candidate.Some? && p.candidate == v.candidate
    && v.snapshot.Some? && p.snapshot == v.snapshot
  }

  function Update(papers: seq<Paper>, v: Verdict): seq<Paper> {
    seq(|papers|, i requires 0 <= i < |papers| =>
      if Hit(papers[i], v) then papers[i].(decision := v.matched) else papers[i])
  }

  function Rowcount(papers: seq<Paper>, v: Verdict): nat {
    if papers == [] then 0
    else Rowcount(papers[..|papers| - 1], v) + (if Hit(papers[|papers| - 1], v) then 1 else 0)
  }

  /** _read_paper_row. */
  function Read(papers: seq<Paper>, id: int): (r: Option<Paper>)
    ensures r.Some? ==> r.value in papers && r.value.id == id
    ensures r.None? ==> forall p :: p in papers ==> p.id != id
  {
    if papers == [] then None
    else
      var n := |papers| - 1;
      assert papers == papers[..n] + [papers[n]];
      if papers[n].id == id then Some(papers[n]) else Read(papers[..n], id)
  }

  ghost predicate GuardHolds(papers: seq<Paper>, v: Verdict) {
    exists p :: p in papers && Hit(p, v)
  }

  lemma {:induction false} RowcountIsGuard(papers: seq<Paper>, v: Verdict)
    requires Keyed(papers)
    ensures Rowcount(papers, v) == if GuardHolds(papers, v) then 1 else 0
  {
    if papers != [] {
      var n := |papers| - 1;
      RowcountIsGuard(papers[..n], v);
      assert papers == papers[..n] + [papers[n]];
    }
  }

  lemma ReadInKeyed(papers: seq<Paper>, p: Paper)
    requires Keyed(papers) && p in papers
    ensures Read(papers, p.id) == Some(p)
  {
    var q := Read(papers, p.id).value;
    var i :| 0 <= i < |papers| && papers[i] == p;
    var j :| 0 <= j < |papers| && papers[j] == q;
  }

  // ---- the column proof -----------------------------------------------------------------------

  function CellOf(p: Option<Paper>, c: Column): Cell {
    if p.None? then Null
    else
      match c
      case Id => Int(p.value.id)
      case CandidateId => if p.value.candidate.Some? then Int(p.value.candidate.value) else Null
      case PriceSnapshotId => if p.value.snapshot.Some? then Text(p.value.snapshot.value) else Null
      case TradeScoreDecisionId => if p.value.decision.Some? then Int(p.value.decision.value) else Null
      case SignalReason => SignalText(p.value.signal)
      case Extra(name) => if name in p.value.rest then p.value.rest[name] else Null
  }

  predicate Changed(before: Option<Paper>, after: Option<Paper>, c: Column) {
    CellOf(before, c) != CellOf(after, c)
  }

  /** The proof of one row demands that the decision changed and no other column did. */
  ghost predicate OnlyDecisionChanged(before: Option<Paper>, after: Option<Paper>, cols: seq<Column>) {
    && Changed(before, after, TradeScoreDecisionId)
    && forall c :: c in cols && c != TradeScoreDecisionId ==> !Changed(before, after, c)
  }

  lemma HasAnother<T>(s: seq<T>, x: T)
    requires NoDuplicates(s) && |s| > 1
    ensures exists y :: y in s && y != x
  {
    var y := if s[0] == x then s[1] else s[0];
    assert y in s;
  }

  /** _proof_changed_columns. */
  method ProofChangedColumns(before: Option<Paper>, after: Option<Paper>, cols: seq<Column>)
      returns (changed: seq<Column>)
    requires NoDuplicates(cols) && TradeScoreDecisionId in cols
    ensures changed == [TradeScoreDecisionId] <==> OnlyDecisionChanged(before, after, cols)
    ensures forall c :: c in changed <==> c in cols && Changed(before, after, c)
  {
    changed := [];
    for i := 0 to |cols|
      invariant forall c :: c in changed <==> c in cols[..i] && Changed(before, after, c)
      invariant NoDuplicates(changed)
    {
      assert cols[..i + 1] == cols[..i] + [cols[i]] && cols[i] !in cols[..i];
      if CellOf(before, cols[i]) != CellOf(after, cols[i]) {
        changed := changed + [cols[i]];
      }
    }
    assert cols[..|cols|] == cols;
    if changed == [TradeScoreDecisionId] {
      assert TradeScoreDecisionId in changed;
      assert forall c :: c in changed ==> c == TradeScoreDecisionId;
    }
    if OnlyDecisionChanged(before, after, cols) {
      assert TradeScoreDecisionId in changed;
      if |changed| > 1 {
        HasAnother(changed, TradeScoreDecisionId);
      }
    }
  }

  /** The columns leave nothing of a row out: two rows whose other columns have the same names are
      equal exactly when no column differs. */
  lemma ColumnsDecideRow(p: Paper, q: Paper)
    requires p.rest.Keys == q.rest.Keys
    ensures (forall c :: !Changed(Some(p), Some(q), c)) <==> p == q
  {
    if forall c :: !Changed(Some(p), Some(q), c) {
      assert !Changed(Some(p), Some(q), Id) && !Changed(Some(p), Some(q), CandidateId);
      assert !Changed(Some(p), Some(q), PriceSnapshotId) && !Changed(Some(p), Some(q), TradeScoreDecisionId);
      assert !Changed(Some(p), Some(q), SignalReason);
      forall name | name in p.rest ensures p.rest[name] == q.rest[name] {
        assert !Changed(Some(p), Some(q), Extra(name));
      }
    }
  }
}
