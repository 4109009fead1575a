/** One run of the provenance repair, with other writers between its reads and its write. */
module RepairRun {
  import opened Basics
  import opened Transactions
  import opened Repair

  // ---- a batch of updates ---------------------------------------------------------------

  ghost predicate DistinctPapers(vs: seq<Verdict>) {
    forall i, j :: 0 <= i < j < |vs| ==> vs[i].paper != vs[j].paper
  }

  /** The decision that a batch writes into a row, if any. */
  function Target(p: Paper, vs: seq<Verdict>): Option<int> {
    if vs == [] then None
    else if Hit(p, vs[|vs| - 1]) then vs[|vs| - 1].matched
    else Target(p, vs[..|vs| - 1])
  }

  function Patch(p: Paper, vs: seq<Verdict>): Paper {
    if Target(p, vs).Some? then p.(decision := Target(p, vs)) else p
  }

  function Patched(papers: seq<Paper>, vs: seq<Verdict>): seq<Paper> {
    seq(|papers|, i requires 0 <= i < |papers| => Patch(papers[i], vs))
  }

  lemma {:induction false} NoTarget(p: Paper, vs: seq<Verdict>)
    requires forall i :: 0 <= i < |vs| ==> !Hit(p, vs[i])
    ensures Target(p, vs) == None
  {
    if vs != [] {
      NoTarget(p, vs[..|vs| - 1]);
    }
  }

  /** In a batch of distinct matched rows, the row of a verdict whose guard holds receives
      that verdict's decision. */
  lemma {:induction false} TargetIs(p: Paper, vs: seq<Verdict>, i: nat)
    requires DistinctPapers(vs) && AllMatched(vs) && i < |vs| && Hit(p, vs[i])
    ensures Target(p, vs) == vs[i].matched
  {
    if i < |vs| - 1 {
      TargetIs(p, vs[..|vs| - 1], i);
    }
  }

  lemma HitAfterOthers(p: Paper, vs: seq<Verdict>, i: nat)
    requires DistinctPapers(vs) && i < |vs|
    ensures Hit(Patch(p, vs[..i]), vs[i]) <==> Hit(p, vs[i])
    ensures Hit(p, vs[i]) ==> Patch(p, vs[..i]) == p
  {
    if p.id == vs[i].paper {
      NoTarget(p, vs[..i]);
    }
  }

  /** One more guarded update extends the batch, and the earlier ones did not touch its guard. */
  lemma PatchStep(papers: seq<Paper>, vs: seq<Verdict>, i: nat)
    requires DistinctPapers(vs) && AllMatched(vs) && i < |vs|
    ensures Update(Patched(papers, vs[..i]), vs[i]) == Patched(papers, vs[..i + 1])
    ensures GuardHolds(Patched(papers, vs[..i]), vs[i]) <==> GuardHolds(papers, vs[i])
  {
    var before := Patched(papers, vs[..i]);
    assert vs[..i + 1][..i] == vs[..i];
    forall k | 0 <= k < |papers|
      ensures Hit(before[k], vs[i]) <==> Hit(papers[k], vs[i])
      ensures Update(before, vs[i])[k] == Patched(papers, vs[..i + 1])[k]
    {
      HitAfterOthers(papers[k], vs, i);
    }
    if GuardHolds(papers, vs[i]) {
      var k :| 0 <= k < |papers| && Hit(papers[k], vs[i]);
      assert before[k] in before && Hit(before[k], vs[i]);
    }
    if GuardHolds(before, vs[i]) {
      var k :| 0 <= k < |before| && Hit(before[k], vs[i]);
      assert papers[k] in papers && Hit(papers[k], vs[i]);
    }
  }

  // ---- one run ------------------------------------------------------------------------------

  /** What the run meets outside its own writes: the database that each of its read-only
      connections finds, the row contents read just before the first update takes the write
      lock, the backup, a storage error at one update (or at the commit, when it equals
      their number), and the final verification. */
  datatype World = World(
    cols: seq<Column>, select: Db, tcsAt: nat -> seq<Tc>, firstRead: seq<Paper>, backupVerified: bool,
    fault: Option<nat>, integrityOk: bool, foreignKeyViolations: nat, laterTcs: seq<Tc>, laterOthers: seq<string>)

  datatype Status =
    | Running | InvalidLimit | IncompleteWriteGates | SchemaRejected | BatchValidationFailed | DryRunComplete
    | NoRows | BackupFailed | TransactionRollback | PostRepairVerificationFailed | Complete

  datatype Proof = Proof(
    paper: int, matched: Option<int>, before: Option<int>, after: Option<int>, changed: seq<Column>)

  class RepairReport {
    var status: Status
    var rows: seq<Verdict>
    var skipped: seq<Verdict>
    var updated: seq<Verdict>
    var proofs: seq<Proof>
    var selectedCount: nat
    var validatedCount: nat
    var updatedCount: nat
    var committed: bool
    var rolledBack: bool

    constructor ()
      ensures Blank()
    {
      status, rows, skipped, updated, proofs := Running, [], [], [], [];
      selectedCount, validatedCount, updatedCount, committed, rolledBack := 0, 0, 0, false, false;
    }

    ghost predicate Blank()
      reads this
    {
      && status == Running && rows == skipped == updated == [] && proofs == []
      && selectedCount == validatedCount == updatedCount == 0 && !committed && !rolledBack
    }
  }

  predicate RequiredColumns(cols: seq<Column>) {
    Id in cols && CandidateId in cols && PriceSnapshotId in cols && TradeScoreDecisionId in cols
  }

  /** The column proof of a verdict's row, should the update find it. */
  ghost predicate Proved(before: Option<Paper>, papers: seq<Paper>, v: Verdict, cols: seq<Column>) {
    forall p :: p in papers && Hit(p, v) ==> OnlyDecisionChanged(before, Some(p.(decision := v.matched)), cols)
  }

  /** Exactly when the write transaction over the validated rows commits. */
  ghost predicate WriteSucceeds(world: World, papers: seq<Paper>, vs: seq<Verdict>) {
    && (forall i :: 0 <= i < |vs| ==> GuardHolds(papers, vs[i]))
    && (vs != [] ==> Proved(Read(world.firstRead, vs[0].paper), papers, vs[0], world.cols))
    && (world.fault.Some? ==> world.fault.value > |vs|)
  }

  ghost predicate Proves(pr: Proof, v: Verdict) {
    && pr.paper == v.paper && pr.matched == v.matched && pr.after == v.matched && pr.before != pr.after
    && pr.changed == [TradeScoreDecisionId]
  }

  lemma HitChangesOnlyDecision(p: Paper, v: Verdict, cols: seq<Column>)
    requires Hit(p, v) && v.matched.Some?
    ensures OnlyDecisionChanged(Some(p), Some(p.(decision := v.matched)), cols)
  {
  }

  /** A row read inside the transaction cannot have changed otherwise. */
  lemma ProvedInTransaction(papers: seq<Paper>, v: Verdict, cols: seq<Column>)
    requires Keyed(papers) && v.matched.Some?
    ensures Proved(Read(papers, v.paper), papers, v, cols)
  {
    forall p | p in papers && Hit(p, v)
      ensures OnlyDecisionChanged(Read(papers, v.paper), Some(p.(decision := v.matched)), cols)
    {
      ReadInKeyed(papers, p);
      HitChangesOnlyDecision(p, v, cols);
    }
  }

  lemma KeyedAfterUpdate(papers: seq<Paper>, v: Verdict)
    requires Keyed(papers)
    ensures Keyed(Update(papers, v))
  {
  }

  /** The row that the guard found, re-read after the update; it is the only one. */
  lemma UpdateFinds(papers: seq<Paper>, v: Verdict) returns (p: Paper)
    requires Keyed(papers) && GuardHolds(papers, v)
    ensures p in papers && Hit(p, v) && forall q :: q in papers && Hit(q, v) ==> q == p
    ensures Read(Update(papers, v), v.paper) == Some(p.(decision := v.matched))
  {
    var k :| 0 <= k < |papers| && Hit(papers[k], v);
    p := papers[k];
    forall q | q in papers && Hit(q, v) ensures q == p {
      ReadInKeyed(papers, p);
      ReadInKeyed(papers, q);
    }
    KeyedAfterUpdate(papers, v);
    assert Update(papers, v)[k] == p.(decision := v.matched);
    ReadInKeyed(Update(papers, v), Update(papers, v)[k]);
  }

  /** One guarded update with its row count and its column proof. */
  method UpdateOne(conn: Connection<Db>, v: Verdict, before: Option<Paper>, cols: seq<Column>)
      returns (ok: bool, proof: Proof)
    requires Keyed(conn.working.papers) && v.matched.Some? && NoDuplicates(cols) && RequiredColumns(cols)
    modifies conn`working, conn`began
    ensures ok <==> GuardHolds(old(conn.working.papers), v) && Proved(before, old(conn.working.papers), v, cols)
    ensures conn.working == old(conn.working).(papers := Update(old(conn.working.papers), v))
    ensures ok ==> Proves(proof, v)
  {
    var papers := conn.working.papers;
    proof := Proof(v.paper, v.matched, None, None, []);
    RowcountIsGuard(papers, v);
    conn.Write(conn.working.(papers := Update(papers, v)));
    if Rowcount(papers, v) != 1 {
      return false, proof;
    }
    ghost var p := UpdateFinds(papers, v);
    var after := Read(conn.working.papers, v.paper);
    var changed := ProofChangedColumns(before, after, cols);
    if changed != [TradeScoreDecisionId] {
      return false, proof;
    }
    var was := if before.Some? then before.value.decision else None;
    return true, Proof(v.paper, v.matched, was, after.value.decision, changed);
  }

  /** The row contents that the column proof of update i compares with. */
  function Before(world: World, papers: seq<Paper>, vs: seq<Verdict>, i: nat): Option<Paper>
    requires i < |vs|
  {
    Read(if i == 0 then world.firstRead else papers, vs[i].paper)
  }

  ghost predicate StepSucceeds(world: World, papers: seq<Paper>, vs: seq<Verdict>, i: nat)
    requires i < |vs|
  {
    GuardHolds(papers, vs[i]) && Proved(Before(world, papers, vs, i), papers, vs[i], world.cols)
  }

  /** The first i updates went through and made papers of the table found. */
  ghost predicate Applied(world: World, found: seq<Paper>, papers: seq<Paper>, vs: seq<Verdict>, i: nat)
    requires i <= |vs|
  {
    && Keyed(papers) && papers == Patched(found, vs[..i])
    && (forall k :: 0 <= k < i ==> GuardHolds(found, vs[k]))
    && (i > 0 ==> Proved(Read(world.firstRead, vs[0].paper), found, vs[0], world.cols))
  }

  lemma NothingApplied(world: World, found: seq<Paper>, vs: seq<Verdict>)
    requires Keyed(found)
    ensures Applied(world, found, found, vs, 0)
  {
    assert found == Patched(found, vs[..0]);
  }

  lemma AppliedStep(world: World, found: seq<Paper>, papers: seq<Paper>, vs: seq<Verdict>, i: nat)
    requires DistinctPapers(vs) && AllMatched(vs) && i < |vs| && Applied(world, found, papers, vs, i)
    ensures if StepSucceeds(world, papers, vs, i) then Applied(world, found, Update(papers, vs[i]), vs, i + 1)
            else !WriteSucceeds(world, found, vs)
  {
    PatchStep(found, vs, i);
    KeyedAfterUpdate(papers, vs[i]);
    if i > 0 {
      ProvedInTransaction(papers, vs[i], world.cols);
    } else {
      assert papers == found;
    }
  }

  lemma AllApplied(world: World, found: seq<Paper>, papers: seq<Paper>, vs: seq<Verdict>)
    requires Applied(world, found, papers, vs, |vs|)
    ensures papers == Patched(found, vs)
    ensures WriteSucceeds(world, found, vs) <==> (world.fault.Some? ==> world.fault.value > |vs|)
  {
    assert vs[..|vs|] == vs;
  }

  ghost predicate AllProve(proofs: seq<Proof>, vs: seq<Verdict>) {
    |proofs| == |vs| && forall k :: 0 <= k < |vs| ==> Proves(proofs[k], vs[k])
  }

  lemma AllProveStep(proofs: seq<Proof>, proof: Proof, vs: seq<Verdict>, i: nat)
    requires i < |vs| && AllProve(proofs, vs[..i]) && Proves(proof, vs[i])
    ensures AllProve(proofs + [proof], vs[..i + 1])
    ensures vs[..i + 1] == vs[..i] + [vs[i]]
  {
  }

  /** The except branch. */
  method Abort(conn: Connection<Db>, report: RepairReport)
    modifies conn, report`updated, report`proofs
    ensures conn.Idle() && conn.durable == old(conn.durable) && report.updated == [] && report.proofs == []
  {
    conn.Rollback();
    report.updated, report.proofs := [], [];
  }

  /** One row of the write transaction. */
  method WriteRow(conn: Connection<Db>, report: RepairReport, vs: seq<Verdict>, world: World, i: nat,
                  ghost found: seq<Paper>)
      returns (ok: bool)
    requires i < |vs| && DistinctPapers(vs) && AllMatched(vs)
    requires NoDuplicates(world.cols) && RequiredColumns(world.cols)
    requires Applied(world, found, conn.working.papers, vs, i)
    requires report.updated == vs[..i] && AllProve(report.proofs, vs[..i])
    modifies conn`working, conn`began, report`updated, report`proofs
    ensures ok ==> Applied(world, found, conn.working.papers, vs, i + 1) && world.fault != Some(i)
    ensures ok ==> report.updated == vs[..i + 1] && AllProve(report.proofs, vs[..i + 1])
    ensures conn.working == old(conn.working).(papers := conn.working.papers)
    ensures !ok ==> world.fault == Some(i) || !WriteSucceeds(world, found, vs)
  {
    var before := Before(world, conn.working.papers, vs, i);
    AppliedStep(world, found, conn.working.papers, vs, i);
    var updated, proof := UpdateOne(conn, vs[i], before, world.cols);
    if world.fault == Some(i) || !updated {
      return false;
    }
    AllProveStep(report.proofs, proof, vs, i);
    report.proofs := report.proofs + [proof];
    report.updated := report.updated + [vs[i]];
    return true;
  }

  /** The write transaction: every validated row is updated and durable, or none is. */
  method WriteBatch(conn: Connection<Db>, report: RepairReport, vs: seq<Verdict>, world: World)
      returns (ok: bool)
    requires conn.Idle() && Keyed(conn.durable.papers) && report.updated == [] && report.proofs == []
    requires DistinctPapers(vs) && AllMatched(vs)
    requires NoDuplicates(world.cols) && RequiredColumns(world.cols)
    modifies conn, report`updated, report`proofs
    ensures conn.Idle() && (ok <==> WriteSucceeds(world, old(conn.durable.papers), vs))
    ensures ok ==> conn.durable == old(conn.durable).(papers := Patched(old(conn.durable.papers), vs))
    ensures ok ==> report.updated == vs && AllProve(report.proofs, vs)
    ensures !ok ==> conn.durable == old(conn.durable) && report.updated == [] && report.proofs == []
  {
    ghost var start := conn.durable;
    NothingApplied(world, start.papers, vs);
    for i := 0 to |vs|
      invariant conn.saved.None? && conn.durable == start
      invariant conn.working == start.(papers := conn.working.papers)
      invariant Applied(world, start.papers, conn.working.papers, vs, i)
      invariant world.fault.Some? ==> world.fault.value >= i
      invariant report.updated == vs[..i] && AllProve(report.proofs, vs[..i])
    {
      var written := WriteRow(conn, report, vs, world, i, start.papers);
      if !written {
        Abort(conn, report);
        return false;
      }
    }
    AllApplied(world, start.papers, conn.working.papers, vs);
    assert vs[..|vs|] == vs;
    if world.fault == Some(|vs|) {
      Abort(conn, report);
      return false;
    }
    conn.Commit();
    ok := true;
  }

  /** Every row named by a committed batch was, when it was written, still without a decision
      and still of the validated candidate and snapshot; it received its validated decision,
      and no other row and no other column changed. */
  lemma CommittedBatchMeans(world: World, found: seq<Paper>, vs: seq<Verdict>)
    requires Keyed(found) && DistinctPapers(vs) && AllMatched(vs) && WriteSucceeds(world, found, vs)
    ensures forall i :: 0 <= i < |vs| ==>
              exists k :: 0 <= k < |found| && Hit(found[k], vs[i])
                          && Patched(found, vs)[k] == found[k].(decision := vs[i].matched)
    ensures forall k :: 0 <= k < |found| && (forall i :: 0 <= i < |vs| ==> vs[i].paper != found[k].id)
                        ==> Patched(found, vs)[k] == found[k]
    ensures |Patched(found, vs)| == |found|
  {
    forall i | 0 <= i < |vs|
      ensures exists k :: 0 <= k < |found| && Hit(found[k], vs[i])
                          && Patched(found, vs)[k] == found[k].(decision := vs[i].matched)
    {
      var k :| 0 <= k < |found| && Hit(found[k], vs[i]);
      TargetIs(found[k], vs, i);
      assert Patched(found, vs)[k] == found[k].(decision := vs[i].matched);
    }
    forall k | 0 <= k < |found| && (forall i :: 0 <= i < |vs| ==> vs[i].paper != found[k].id)
      ensures Patched(found, vs)[k] == found[k]
    {
      NoTarget(found[k], vs);
    }
  }

  // ---- the whole run ------------------------------------------------------------------------

  /** The verdicts with a match, or those without. */
  function Keep(vs: seq<Verdict>, matched: bool): seq<Verdict> {
    if vs == [] then []
    else
      var last := vs[|vs| - 1];
      Keep(vs[..|vs| - 1], matched) + (if last.matched.Some? == matched then [last] else [])
  }

  lemma {:induction false} KeepSplits(vs: seq<Verdict>)
    ensures |Keep(vs, true)| + |Keep(vs, false)| == |vs|
    ensures |Keep(vs, true)| == |vs| <==> AllMatched(vs)
    ensures AllMatched(vs) ==> Keep(vs, true) == vs
  {
    if vs != [] {
      KeepSplits(vs[..|vs| - 1]);
      assert vs == vs[..|vs| - 1] + [vs[|vs| - 1]];
    }
  }

  function Validated(world: World, limit: nat): seq<Verdict> {
    Verdicts(Selected(world.select.papers, limit), world.tcsAt)
  }

  lemma ValidatedDistinct(world: World, limit: nat)
    requires Keyed(world.select.papers)
    ensures DistinctPapers(Validated(world, limit))
  {
    BacklogIsKeyed(world.select.papers);
    var selected, vs := Selected(world.select.papers, limit), Validated(world, limit);
    forall i, j | 0 <= i < j < |vs| ensures vs[i].paper != vs[j].paper {
      assert vs[i] == VerdictOf(selected[i], world.tcsAt(i)) && vs[j] == VerdictOf(selected[j], world.tcsAt(j));
      assert selected[i].id < selected[j].id;
    }
  }

  predicate Verified(world: World) {
    && world.integrityOk && world.foreignKeyViolations == 0
    && world.select.tcs == world.laterTcs && world.select.others == world.laterOthers
  }

  /** The validation loop. */
  method Validate(report: RepairReport, selected: seq<Paper>, tcsAt: nat -> seq<Tc>) returns (valid: seq<Verdict>)
    requires report.rows == report.skipped == []
    modifies report`rows, report`skipped, report`selectedCount, report`validatedCount
    ensures report.rows == Verdicts(selected, tcsAt)
    ensures valid == Keep(report.rows, true) && report.skipped == Keep(report.rows, false)
    ensures report.selectedCount == |selected| && report.validatedCount == |valid|
  {
    ghost var vs := Verdicts(selected, tcsAt);
    valid := [];
    for i := 0 to |selected|
      invariant report.rows == vs[..i]
      invariant valid == Keep(vs[..i], true) && report.skipped == Keep(vs[..i], false)
    {
      var v := VerdictOf(selected[i], tcsAt(i));
      assert vs[..i + 1][..i] == vs[..i] && vs[..i + 1] == vs[..i] + [v];
      report.rows := report.rows + [v];
      if v.matched.Some? {
        valid := valid + [v];
      } else {
        report.skipped := report.skipped + [v];
      }
    }
    assert vs[..|vs|] == vs;
    report.selectedCount, report.validatedCount := |selected|, |valid|;
  }

  /** How a run ends before any write, if it does. */
  function EarlyStatus(limit: int, write: bool, gates: bool, world: World): Option<Status> {
    if limit < MIN_LIMIT || limit > MAX_LIMIT then Some(InvalidLimit)
    else if write && !gates then Some(IncompleteWriteGates)
    else if !RequiredColumns(world.cols) then Some(SchemaRejected)
    else
      var vs := Validated(world, limit);
      if |Keep(vs, true)| != |vs| then Some(BatchValidationFailed)
      else if !write then Some(if vs == [] then NoRows else DryRunComplete)
      else if !world.backupVerified then Some(BackupFailed)
      else None
  }

  /** Everything before the writable connection is opened. */
  method Plan(report: RepairReport, limit: int, write: bool, gates: bool, world: World)
      returns (valid: Option<seq<Verdict>>)
    requires report.Blank() && Keyed(world.select.papers)
    modifies report`status, report`rows, report`skipped, report`selectedCount, report`validatedCount
    ensures var early := EarlyStatus(limit, write, gates, world);
            if early.Some? then valid.None? && report.status == early.value
            else limit >= 0 && valid == Some(Validated(world, limit)) && report.status == Running
    ensures CountsOf(report) == CountsFor(limit, write, gates, world)
    ensures valid.Some? ==> AllMatched(valid.value) && DistinctPapers(valid.value)
    ensures valid.Some? ==> RequiredColumns(world.cols)
  {
    valid := None;
    if limit < MIN_LIMIT || limit > MAX_LIMIT {
      report.status := InvalidLimit;
      return;
    }
    if write && !gates {
      report.status := IncompleteWriteGates;
      return;
    }
    if !RequiredColumns(world.cols) {
      report.status := SchemaRejected;
      return;
    }
    var matched := Validate(report, Selected(world.select.papers, limit), world.tcsAt);
    KeepSplits(Validated(world, limit));
    ValidatedDistinct(world, limit);
    if report.selectedCount > 0 && report.validatedCount != report.selectedCount {
      report.status := BatchValidationFailed;
    } else if !write {
      report.status := if report.validatedCount > 0 then DryRunComplete else NoRows;
    } else if !world.backupVerified {
      report.status := BackupFailed;
    } else {
      valid := Some(matched);
    }
  }

  // ---- the guards, on the inputs ------------------------------------------------------------

  predicate InRange(limit: int) {
    1 <= limit <= 3
  }

  /** The four columns that the repair names. */
  ghost predicate HasColumns(cols: seq<Column>) {
    forall c :: c in {Id, CandidateId, PriceSnapshotId, TradeScoreDecisionId} ==> c in cols
  }

  /** What the final verification asks for: an intact database, no broken reference, and the other
      tables as they were. */
  ghost predicate Intact(world: World) {
    && world.integrityOk && world.foreignKeyViolations == 0
    && world.laterTcs == world.select.tcs && world.laterOthers == world.select.others
  }

  /** One decision alone has the row's candidate and snapshot, on the connection that checks it. */
  ghost predicate Deterministic(world: World, selected: seq<Paper>, i: nat)
    requires i < |selected|
  {
    exists k :: 0 <= k < |world.tcsAt(i)| && IsOnlyOwner(world.tcsAt(i), selected[i], k)
  }

  ghost predicate AllDeterministic(world: World, selected: seq<Paper>) {
    forall i :: 0 <= i < |selected| ==> Deterministic(world, selected, i)
  }

  /** The run gets as far as validating the rows it selects. */
  ghost predicate Validates(limit: int, write: bool, gates: bool, world: World) {
    InRange(limit) && (write ==> gates) && HasColumns(world.cols)
  }

  /** How a run ends, by its inputs and by whether it committed. */
  ghost predicate EndsBy(status: Status, limit: int, write: bool, gates: bool, world: World, committed: bool) {
    && (status == InvalidLimit <==> !InRange(limit))
    && (status == IncompleteWriteGates <==> InRange(limit) && write && !gates)
    && (status == SchemaRejected <==> InRange(limit) && (write ==> gates) && !HasColumns(world.cols))
    && (if Validates(limit, write, gates, world) then
          var selected := Selected(world.select.papers, limit);
          var valid := AllDeterministic(world, selected);
          && (status == BatchValidationFailed <==> !valid)
          && (status == NoRows <==> !write && selected == [])
          && (status == DryRunComplete <==> !write && selected != [] && valid)
          && (status == BackupFailed <==> write && valid && !world.backupVerified)
          && (status == TransactionRollback <==> write && valid && world.backupVerified && !committed)
          && (status == Complete <==> committed && Intact(world))
          && (status == PostRepairVerificationFailed <==> committed && !Intact(world))
          && (committed ==> write && valid && world.backupVerified)
        else !committed)
  }

  /** What a run reports of its selection. */
  datatype Counts = Counts(rows: seq<Verdict>, skipped: seq<Verdict>, selected: nat, validated: nat)

  function CountsOf(report: RepairReport): Counts
    reads report
  {
    Counts(report.rows, report.skipped, report.selectedCount, report.validatedCount)
  }

  ghost predicate Reports(c: Counts, limit: int, write: bool, gates: bool, world: World) {
    if Validates(limit, write, gates, world) then
      var selected := Selected(world.select.papers, limit);
      && |c.rows| == c.selected == |selected|
      && (forall i :: 0 <= i < |selected| ==>
            c.rows[i].paper == selected[i].id && (c.rows[i].matched.Some? <==> Deterministic(world, selected, i)))
      && c.validated + |c.skipped| == c.selected
      && (forall v :: v in c.skipped <==> v in c.rows && v.matched.None?)
    else
      c == Counts([], [], 0, 0)
  }

  /** What the branches leave in the report. */
  function CountsFor(limit: int, write: bool, gates: bool, world: World): Counts {
    if limit < MIN_LIMIT || limit > MAX_LIMIT || (write && !gates) || !RequiredColumns(world.cols) then Counts([], [], 0, 0)
    else
      var vs := Validated(world, limit);
      Counts(vs, Keep(vs, false), |vs|, |Keep(vs, true)|)
  }

  lemma ReportsFollow(limit: int, write: bool, gates: bool, world: World)
    ensures Reports(CountsFor(limit, write, gates, world), limit, write, gates, world)
  {
    if Validates(limit, write, gates, world) {
      VerdictsAre(world, limit);
      KeepSplits(Validated(world, limit));
      KeepAre(Validated(world, limit), false);
    }
  }

  lemma {:induction false} KeepAre(vs: seq<Verdict>, matched: bool)
    ensures forall v :: v in Keep(vs, matched) <==> v in vs && v.matched.Some? == matched
  {
    if vs != [] {
      KeepAre(vs[..|vs| - 1], matched);
      assert vs == vs[..|vs| - 1] + [vs[|vs| - 1]];
    }
  }

  lemma VerdictsAre(world: World, limit: nat)
    ensures var selected, vs := Selected(world.select.papers, limit), Validated(world, limit);
            && |vs| == |selected|
            && (forall i :: 0 <= i < |selected| ==>
                  vs[i].paper == selected[i].id && (vs[i].matched.Some? <==> Deterministic(world, selected, i)))
            && (AllMatched(vs) <==> AllDeterministic(world, selected))
  {
    var selected, vs := Selected(world.select.papers, limit), Validated(world, limit);
    forall i | 0 <= i < |selected|
      ensures vs[i].paper == selected[i].id && (vs[i].matched.Some? <==> Deterministic(world, selected, i))
    {
      VerdictExactlyWhen(selected[i], world.tcsAt(i));
    }
  }

  /** Every early end follows from its guard. */
  lemma EarlyEnds(limit: int, write: bool, gates: bool, world: World)
    ensures var early := EarlyStatus(limit, write, gates, world);
            && (early.Some? ==> EndsBy(early.value, limit, write, gates, world, false))
            && (early.None? ==> Validates(limit, write, gates, world) && write && world.backupVerified
                                && AllDeterministic(world, Selected(world.select.papers, limit)))
  {
    if Validates(limit, write, gates, world) {
      VerdictsAre(world, limit);
      KeepSplits(Validated(world, limit));
    }
  }

  /** The status that the branches of the run assign. */
  function StatusOf(limit: int, write: bool, gates: bool, world: World, committed: bool): Status {
    match EarlyStatus(limit, write, gates, world)
    case Some(early) => early
    case None =>
      if !committed then TransactionRollback else if Verified(world) then Complete else PostRepairVerificationFailed
  }

  lemma Ends(limit: int, write: bool, gates: bool, world: World, committed: bool)
    requires committed ==> EarlyStatus(limit, write, gates, world).None?
    ensures EndsBy(StatusOf(limit, write, gates, world, committed), limit, write, gates, world, committed)
    ensures committed ==> write && gates && InRange(limit) && world.backupVerified && |Validated(world, limit)| <= limit
  {
    EarlyEnds(limit, write, gates, world);
  }

  /** The row as it must be when the write finds it: still without a decision, with the candidate
      and the snapshot that were validated. */
  ghost predicate StillLacks(p: Paper, selected: Paper) {
    p.id == selected.id && p.decision == None && p.candidate == selected.candidate && p.snapshot == selected.snapshot
  }

  /** The i-th selected row has received the one decision that its connection found for it. */
  ghost predicate Received(world: World, selected: seq<Paper>, i: nat, found: seq<Paper>, after: seq<Paper>)
    requires i < |selected| && |after| == |found|
  {
    exists k, j :: 0 <= k < |found| && StillLacks(found[k], selected[i])
                   && 0 <= j < |world.tcsAt(i)| && IsOnlyOwner(world.tcsAt(i), selected[i], j)
                   && after[k] == found[k].(decision := Some(world.tcsAt(i)[j].id))
  }

  lemma RowReceives(world: World, limit: nat, found: seq<Paper>, i: nat, k: nat)
    requires i < |Selected(world.select.papers, limit)| && Validated(world, limit)[i].matched.Some?
    requires var vs := Validated(world, limit);
             && k < |found| && Hit(found[k], vs[i]) && |Patched(found, vs)| == |found|
             && Patched(found, vs)[k] == found[k].(decision := vs[i].matched)
    ensures Received(world, Selected(world.select.papers, limit), i, found, Patched(found, Validated(world, limit)))
  {
    var p, tcs := Selected(world.select.papers, limit)[i], world.tcsAt(i);
    VerdictExactlyWhen(p, tcs);
    ReasonExactlyWhen(p, tcs);
    var j :| 0 <= j < |tcs| && IsOnlyOwner(tcs, p, j);
    assert StillLacks(found[k], p);
  }

  /** What a commit means, row by row: each selected row was still as validated and has received
      the one decision that its connection found for its candidate and snapshot; no other row and
      no other column has changed. */
  lemma CommitMeans(limit: int, write: bool, gates: bool, world: World, found: seq<Paper>)
    requires Commits(limit, write, gates, world, found) && Keyed(found) && Keyed(world.select.papers)
    ensures limit >= 0
    ensures var after, selected := Patched(found, Validated(world, limit)), Selected(world.select.papers, limit);
            && |after| == |found|
            && (forall i :: 0 <= i < |selected| ==> Received(world, selected, i, found, after))
            && (forall k :: 0 <= k < |found| && (forall i :: 0 <= i < |selected| ==> selected[i].id != found[k].id) ==>
                  after[k] == found[k])
  {
    var vs, selected := Validated(world, limit), Selected(world.select.papers, limit);
    KeepSplits(vs);
    ValidatedDistinct(world, limit);
    CommittedBatchMeans(world, found, vs);
    forall i | 0 <= i < |selected| ensures Received(world, selected, i, found, Patched(found, vs)) {
      var k: nat :| k < |found| && Hit(found[k], vs[i]) && Patched(found, vs)[k] == found[k].(decision := vs[i].matched);
      RowReceives(world, limit, found, i, k);
    }
    forall k | 0 <= k < |found| && (forall i :: 0 <= i < |selected| ==> selected[i].id != found[k].id)
      ensures Patched(found, vs)[k] == found[k]
    {
      forall i | 0 <= i < |vs| ensures vs[i].paper != found[k].id {
        ReasonExactlyWhen(selected[i], world.tcsAt(i));
      }
    }
  }

  /** Exactly when a run over these papers commits. */
  ghost predicate Commits(limit: int, write: bool, gates: bool, world: World, found: seq<Paper>) {
    EarlyStatus(limit, write, gates, world).None? && WriteSucceeds(world, found, Validated(world, limit))
  }

  /** The run itself, by its branches. */
  method Execute(conn: Connection<Db>, report: RepairReport, limit: int, write: bool, gates: bool, world: World)
    requires conn.Idle() && Keyed(conn.durable.papers) && report.Blank()
    requires Keyed(world.select.papers) && NoDuplicates(world.cols)
    modifies conn, report
    ensures conn.Idle()
    ensures report.committed <==> Commits(limit, write, gates, world, old(conn.durable.papers))
    ensures report.committed ==>
              conn.durable == old(conn.durable).(papers := Patched(old(conn.durable.papers), report.updated))
    ensures report.committed ==>
              limit >= 0 && report.updated == Validated(world, limit) && AllProve(report.proofs, report.updated)
    ensures !report.committed ==>
              conn.durable == old(conn.durable) && report.updated == [] && report.proofs == []
    ensures report.updatedCount == |report.updated|
    ensures report.rolledBack <==> report.status == TransactionRollback
    ensures CountsOf(report) == CountsFor(limit, write, gates, world)
    ensures report.status == StatusOf(limit, write, gates, world, report.committed)
  {
    var valid := Plan(report, limit, write, gates, world);
    if valid.None? {
      return;
    }
    var ok := WriteBatch(conn, report, valid.value, world);
    if !ok {
      report.rolledBack, report.status := true, TransactionRollback;
      return;
    }
    report.committed, report.updatedCount := true, |report.updated|;
    report.status := if Verified(world) then Complete else PostRepairVerificationFailed;
  }

  /** repair. The connection holds the database as its write transaction finds it; whatever
      other writers did since the selection and the validation, either all validated rows
      are updated and reported, or the database is as found and nothing is reported. A run
      commits only when it was asked to write, with every gate, a limit in range and a verified
      backup, and then updates at most limit rows; a dry run changes nothing. */
  method Run(conn: Connection<Db>, report: RepairReport, limit: int, write: bool, gates: bool, world: World)
    requires conn.Idle() && Keyed(conn.durable.papers) && report.Blank()
    requires Keyed(world.select.papers) && NoDuplicates(world.cols)
    modifies conn, report
    ensures conn.Idle()
    ensures report.committed <==> Commits(limit, write, gates, world, old(conn.durable.papers))
    ensures report.committed ==>
              conn.durable == old(conn.durable).(papers := Patched(old(conn.durable.papers), report.updated))
    ensures report.committed ==>
              limit >= 0 && report.updated == Validated(world, limit) && AllProve(report.proofs, report.updated)
    ensures !report.committed ==>
              conn.durable == old(conn.durable) && report.updated == [] && report.proofs == []
    ensures report.committed ==>
              write && gates && InRange(limit) && world.backupVerified && |report.updated| <= limit
    ensures !write ==> conn.durable == old(conn.durable) && report.updated == [] && !report.rolledBack
    ensures report.updatedCount == |report.updated|
    ensures report.rolledBack <==> report.status == TransactionRollback
    ensures EndsBy(report.status, limit, write, gates, world, report.committed)
    ensures Reports(CountsOf(report), limit, write, gates, world)
  {
    Execute(conn, report, limit, write, gates, world);
    Ends(limit, write, gates, world, report.committed);
    ReportsFollow(limit, write, gates, world);
  }
}
