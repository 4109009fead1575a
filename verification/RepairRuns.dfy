/** Repeated runs of the provenance repair when no other writer interferes. */
module RepairRuns {
  import opened Basics
  import opened Repair
  import opened RepairRun

  /** One decision alone has the row's candidate and snapshot (VerdictExactlyWhen). */
  predicate Repairable(tcs: seq<Tc>, p: Paper) {
    VerdictOf(p, tcs).matched.Some?
  }

  /** Every read of the run finds the database of its write, and nothing outside fails. */
  ghost predicate Undisturbed(world: World, db: Db) {
    && world.select == db && world.firstRead == db.papers && (forall i: nat :: world.tcsAt(i) == db.tcs)
    && world.fault.None? && world.backupVerified && NoDuplicates(world.cols) && RequiredColumns(world.cols)
  }

  function Batch(db: Db, limit: nat): seq<Verdict> {
    var selected := Selected(db.papers, limit);
    seq(|selected|, i requires 0 <= i < |selected| => VerdictOf(selected[i], db.tcs))
  }

  predicate AllRepairable(tcs: seq<Tc>, rows: seq<Paper>) {
    forall p :: p in rows ==> Repairable(tcs, p)
  }

  predicate Proceeds(db: Db, limit: nat) {
    AllRepairable(db.tcs, Selected(db.papers, limit))
  }

  /** What an undisturbed run makes of the database. */
  function RunOnce(db: Db, limit: nat): Db {
    if Proceeds(db, limit) then db.(papers := Patched(db.papers, Batch(db, limit))) else db
  }

  lemma BatchDistinct(db: Db, limit: nat)
    requires Keyed(db.papers)
    ensures DistinctPapers(Batch(db, limit))
  {
    BacklogIsKeyed(db.papers);
    var selected, vs := Selected(db.papers, limit), Batch(db, limit);
    forall i, j | 0 <= i < j < |vs| ensures vs[i].paper != vs[j].paper {
      assert vs[i] == VerdictOf(selected[i], db.tcs) && vs[j] == VerdictOf(selected[j], db.tcs);
      assert selected[i].id < selected[j].id;
    }
  }

  lemma BatchHits(db: Db, limit: nat, i: nat)
    requires Proceeds(db, limit) && i < |Batch(db, limit)|
    ensures Batch(db, limit)[i].matched.Some? && Hit(Selected(db.papers, limit)[i], Batch(db, limit)[i])
    ensures Selected(db.papers, limit)[i] in db.papers
  {
    var p := Selected(db.papers, limit)[i];
    assert p in Selected(db.papers, limit) && p in Backlog(db.papers);
    assert Repairable(db.tcs, p);
  }

  lemma ValidatedIsBatch(db: Db, limit: nat, world: World)
    requires Undisturbed(world, db)
    ensures Validated(world, limit) == Batch(db, limit)
  {
  }

  lemma BatchMatchedExactlyWhen(db: Db, limit: nat)
    ensures AllMatched(Batch(db, limit)) <==> Proceeds(db, limit)
  {
    var vs, selected := Batch(db, limit), Selected(db.papers, limit);
    if !Proceeds(db, limit) {
      var p :| p in selected && !Repairable(db.tcs, p);
      var i :| 0 <= i < |selected| && selected[i] == p;
      assert vs[i].matched.None?;
    }
    if Proceeds(db, limit) {
      forall i | 0 <= i < |vs| ensures vs[i].matched.Some? { BatchHits(db, limit, i); }
    }
  }

  lemma UndisturbedWriteSucceeds(db: Db, limit: nat, world: World)
    requires Keyed(db.papers) && Undisturbed(world, db) && Proceeds(db, limit)
    ensures WriteSucceeds(world, db.papers, Batch(db, limit))
  {
    var vs := Batch(db, limit);
    forall i | 0 <= i < |vs| ensures vs[i].matched.Some? && GuardHolds(db.papers, vs[i]) {
      BatchHits(db, limit, i);
    }
    if vs != [] {
      ProvedInTransaction(db.papers, vs[0], world.cols);
    }
  }

  /** Undisturbed, the method commits exactly when every selected row is repairable, and its
      effect is RunOnce. */
  lemma UndisturbedRun(db: Db, limit: nat, world: World)
    requires MIN_LIMIT <= limit <= MAX_LIMIT && Keyed(db.papers) && Undisturbed(world, db)
    ensures Commits(limit, true, true, world, db.papers) <==> Proceeds(db, limit)
    ensures RunOnce(db, limit)
            == if Commits(limit, true, true, world, db.papers)
               then db.(papers := Patched(db.papers, Validated(world, limit))) else db
  {
    ValidatedIsBatch(db, limit, world);
    BatchMatchedExactlyWhen(db, limit);
    KeepSplits(Batch(db, limit));
    if Proceeds(db, limit) {
      UndisturbedWriteSucceeds(db, limit, world);
    }
  }

  // ---- what a run leaves of the backlog --------------------------------------------------

  function Entry(p: Paper): seq<Paper> {
    if InBacklog(p) then [p] else []
  }

  lemma BacklogSnoc(papers: seq<Paper>, p: Paper)
    ensures Backlog(papers + [p]) == Backlog(papers) + Entry(p)
  {
    assert (papers + [p])[..|papers|] == papers;
  }

  lemma PatchedSnoc(papers: seq<Paper>, p: Paper, vs: seq<Verdict>)
    ensures Patched(papers + [p], vs) == Patched(papers, vs) + [Patch(p, vs)]
  {
  }

  lemma EntryOfPatched(p: Paper, vs: seq<Verdict>, untouched: set<Paper>)
    requires Target(p, vs).None? <==> p in untouched
    ensures Entry(Patch(p, vs)) == Within(Entry(p), untouched)
  {
  }

  lemma {:induction false} BacklogOfPatched(papers: seq<Paper>, vs: seq<Verdict>, untouched: set<Paper>)
    requires forall p :: p in papers ==> (Target(p, vs).None? <==> p in untouched)
    ensures Backlog(Patched(papers, vs)) == Within(Backlog(papers), untouched)
  {
    if papers != [] {
      var n := |papers| - 1;
      var init, p := papers[..n], papers[n];
      BacklogOfPatched(init, vs, untouched);
      assert papers == init + [p];
      PatchedSnoc(init, p, vs);
      BacklogSnoc(init, p);
      BacklogSnoc(Patched(init, vs), Patch(p, vs));
      EntryOfPatched(p, vs, untouched);
      WithinConcat(Backlog(init), Entry(p), untouched);
    }
  }

  lemma TargetedExactlyWhenSelected(db: Db, limit: nat, p: Paper)
    requires Keyed(db.papers) && Proceeds(db, limit) && p in Backlog(db.papers)
    ensures Target(p, Batch(db, limit)).Some? <==> p in Selected(db.papers, limit)
  {
    var vs, selected := Batch(db, limit), Selected(db.papers, limit);
    BatchDistinct(db, limit);
    BacklogIsKeyed(db.papers);
    forall i | 0 <= i < |vs| ensures vs[i].matched.Some? { BatchHits(db, limit, i); }
    var b := Backlog(db.papers);
    var j :| 0 <= j < |b| && b[j] == p;
    if j < |selected| {
      assert selected[j] == p;
      BatchHits(db, limit, j);
      TargetIs(p, vs, j);
    } else {
      forall i | 0 <= i < |vs| ensures !Hit(p, vs[i]) && selected[i] != p {
        assert vs[i].paper == selected[i].id < b[j].id;
      }
      NoTarget(p, vs);
    }
  }

  /** An undisturbed run that proceeds takes exactly min(limit, count) rows off the front of the
      backlog and leaves the rest of it as it was; otherwise it leaves the database alone. */
  lemma RunTakesFromBacklog(db: Db, limit: nat)
    requires Keyed(db.papers)
    ensures Keyed(RunOnce(db, limit).papers) && RunOnce(db, limit).tcs == db.tcs
    ensures Backlog(RunOnce(db, limit).papers)
            == if Proceeds(db, limit) then Backlog(db.papers)[Min(limit, |Backlog(db.papers)|)..]
               else Backlog(db.papers)
  {
    if Proceeds(db, limit) {
      var vs, b := Batch(db, limit), Backlog(db.papers);
      forall i | 0 <= i < |vs| ensures vs[i].matched.Some? { BatchHits(db, limit, i); }
      var untouched := set p | p in db.papers && Target(p, vs).None?;
      BacklogOfPatched(db.papers, vs, untouched);
      forall p | p in b ensures p in untouched <==> p !in Selected(db.papers, limit) {
        TargetedExactlyWhenSelected(db, limit, p);
      }
      BacklogIsKeyed(db.papers);
      WithinRest(b, Min(limit, |b|), untouched);
    }
  }

  /** What it does to a selected row: its decision becomes the one with its candidate and
      snapshot, and nothing else about it changes. */
  lemma RunRepairsRow(db: Db, limit: nat, i: nat, k: nat)
    requires Keyed(db.papers) && Proceeds(db, limit)
    requires i < |db.papers| && db.papers[i] in Selected(db.papers, limit)
    requires k < |db.tcs| && IsOnlyOwner(db.tcs, db.papers[i], k)
    ensures RunOnce(db, limit).papers[i] == db.papers[i].(decision := Some(db.tcs[k].id))
  {
    var p, vs, selected := db.papers[i], Batch(db, limit), Selected(db.papers, limit);
    BatchDistinct(db, limit);
    forall j | 0 <= j < |vs| ensures vs[j].matched.Some? { BatchHits(db, limit, j); }
    var j :| 0 <= j < |selected| && selected[j] == p;
    BatchHits(db, limit, j);
    TargetIs(p, vs, j);
    VerdictExactlyWhen(p, db.tcs);
  }

  // ---- repeated runs ----------------------------------------------------------------------

  function Iterate(step: Db -> Db, db: Db, k: nat): Db
    decreases k
  {
    if k == 0 then db else Iterate(step, step(db), k - 1)
  }

  function Runs(db: Db, limit: nat, k: nat): Db {
    Iterate((d: Db) => RunOnce(d, limit), db, k)
  }

  /** The backlog under repeated runs. */
  function Drain(tcs: seq<Tc>, rows: seq<Paper>, limit: nat, k: nat): seq<Paper>
    decreases k
  {
    if k == 0 then rows
    else if AllRepairable(tcs, Take(limit, rows)) then Drain(tcs, rows[Min(limit, |rows|)..], limit, k - 1)
    else rows
  }

  /** A single row among the first ones that is not repairable stops every later run too,
      whatever else is repairable. */
  lemma {:induction false} BlockedForever(db: Db, limit: nat, k: nat)
    requires !Proceeds(db, limit)
    ensures Runs(db, limit, k) == db
    decreases k
  {
    if k > 0 {
      BlockedForever(db, limit, k - 1);
    }
  }

  /** What RunTakesFromBacklog says of one run. */
  ghost predicate Takes(db: Db, after: Db, limit: nat) {
    && Keyed(after.papers) && after.tcs == db.tcs
    && Backlog(after.papers)
       == (if AllRepairable(db.tcs, Take(limit, Backlog(db.papers)))
           then Backlog(db.papers)[Min(limit, |Backlog(db.papers)|)..] else Backlog(db.papers))
  }

  ghost predicate TakesAt(step: Db -> Db, db: Db, limit: nat) {
    Keyed(db.papers) ==> Takes(db, step(db), limit)
  }

  ghost predicate AlwaysTakes(step: Db -> Db, limit: nat) {
    forall db {:trigger TakesAt(step, db, limit)} :: TakesAt(step, db, limit)
  }

  lemma {:induction false} IterationDrains(step: Db -> Db, db: Db, limit: nat, k: nat)
    requires AlwaysTakes(step, limit) && Keyed(db.papers)
    ensures Backlog(Iterate(step, db, k).papers) == Drain(db.tcs, Backlog(db.papers), limit, k)
    decreases k
  {
    if k > 0 {
      assert TakesAt(step, db, limit);
      IterationDrains(step, step(db), limit, k - 1);
    }
  }

  lemma RunsDrain(db: Db, limit: nat, k: nat)
    requires Keyed(db.papers)
    ensures Backlog(Runs(db, limit, k).papers) == Drain(db.tcs, Backlog(db.papers), limit, k)
  {
    var step := (d: Db) => RunOnce(d, limit);
    forall d ensures TakesAt(step, d, limit) {
      if Keyed(d.papers) {
        RunTakesFromBacklog(d, limit);
      }
    }
    IterationDrains(step, db, limit, k);
  }

  lemma SplitRepairable(tcs: seq<Tc>, rows: seq<Paper>, n: nat)
    requires n <= |rows|
    ensures AllRepairable(tcs, rows) <==> AllRepairable(tcs, rows[..n]) && AllRepairable(tcs, rows[n..])
  {
    assert rows == rows[..n] + rows[n..];
  }

  lemma {:induction false} DrainLength(tcs: seq<Tc>, rows: seq<Paper>, limit: nat, k: nat)
    requires AllRepairable(tcs, rows)
    ensures |Drain(tcs, rows, limit, k)| == Max(0, |rows| - k * limit)
    decreases k
  {
    if k > 0 {
      var n := Min(limit, |rows|);
      SplitRepairable(tcs, rows, n);
      DrainLength(tcs, rows[n..], limit, k - 1);
      assert k * limit == (k - 1) * limit + limit;
    }
  }

  lemma {:induction false} DrainedOnlyIf(tcs: seq<Tc>, rows: seq<Paper>, limit: nat, k: nat)
    requires Drain(tcs, rows, limit, k) == []
    ensures AllRepairable(tcs, rows)
    decreases k
  {
    if k > 0 && AllRepairable(tcs, Take(limit, rows)) {
      var n := Min(limit, |rows|);
      DrainedOnlyIf(tcs, rows[n..], limit, k - 1);
      SplitRepairable(tcs, rows, n);
    }
  }

  /** With a repairable backlog, each run shortens it by the limit until it is empty. */
  lemma RunsShortenBacklog(db: Db, limit: nat, k: nat)
    requires Keyed(db.papers) && AllRepairable(db.tcs, Backlog(db.papers))
    ensures |Backlog(Runs(db, limit, k).papers)| == Max(0, |Backlog(db.papers)| - k * limit)
  {
    RunsDrain(db, limit, k);
    DrainLength(db.tcs, Backlog(db.papers), limit, k);
  }

  /** Repetition empties the backlog exactly when each of its rows is repairable at the start,
      and then after as many runs as the limit needs. */
  lemma RunsEmptyBacklogExactlyWhen(db: Db, limit: nat, k: nat)
    requires Keyed(db.papers) && |Backlog(db.papers)| <= k * limit
    ensures Backlog(Runs(db, limit, k).papers) == [] <==> AllRepairable(db.tcs, Backlog(db.papers))
  {
    RunsDrain(db, limit, k);
    if AllRepairable(db.tcs, Backlog(db.papers)) {
      DrainLength(db.tcs, Backlog(db.papers), limit, k);
    }
    if Drain(db.tcs, Backlog(db.papers), limit, k) == [] {
      DrainedOnlyIf(db.tcs, Backlog(db.papers), limit, k);
    }
  }
}
