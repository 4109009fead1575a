/** Step 5e (persist_score_component_inputs_for_wallet_decisions): one audit row per decision
    and component, kept so by a set loaded before the loop. */
module Audit {
  import opened Basics

  /** A wallet_score_decisions row with the component names of its JSON column; a component
      without a name has the empty text. */
  datatype Scored = Scored(id: int, components: seq<string>)

  /** (decision_ref_id, component_name) of a score_component_inputs row. */
  type Pair = (int, string)

  function PairsOf(id: int, names: seq<string>): seq<Pair> {
    if names == [] then []
    else
      var last := names[|names| - 1];
      PairsOf(id, names[..|names| - 1]) + (if last == "" then [] else [(id, last)])
  }

  /** The pairs to audit, in decision and component order. */
  function Wanted(scored: seq<Scored>): seq<Pair> {
    if scored == [] then []
    else
      var last := scored[|scored| - 1];
      Wanted(scored[..|scored| - 1]) + PairsOf(last.id, last.components)
  }

  function Ids(scored: seq<Scored>): set<int> {
    set s | s in scored :: s.id
  }

  /** The pre-load: the table's pairs of these decisions, or nothing when the query raises. */
  function Preload(rows: seq<Pair>, ids: set<int>, fails: bool): set<Pair> {
    if fails then {} else set p | p in rows && p.0 in ids
  }

  /** The rows the call adds: the first occurrence of each wanted pair that is not loaded and
      whose insert does not raise. */
  function Added(have: set<Pair>, wanted: seq<Pair>, failing: set<Pair>): (r: seq<Pair>)
    ensures forall p :: p in r <==> p in wanted && p !in have && p !in failing
  {
    if wanted == [] then []
    else
      var n := |wanted| - 1;
      var rest := Added(have, wanted[..n], failing);
      assert wanted == wanted[..n] + [wanted[n]];
      if wanted[n] in have || wanted[n] in rest || wanted[n] in failing then rest else rest + [wanted[n]]
  }

  lemma {:induction false} AddedOnce(have: set<Pair>, wanted: seq<Pair>, failing: set<Pair>)
    ensures NoDuplicates(Added(have, wanted, failing))
  {
    if wanted != [] {
      AddedOnce(have, wanted[..|wanted| - 1], failing);
    }
  }

  lemma AddedSnoc(have: set<Pair>, wanted: seq<Pair>, failing: set<Pair>, p: Pair)
    ensures Added(have, wanted + [p], failing)
            == var rest := Added(have, wanted, failing);
               if p in have || p in rest || p in failing then rest else rest + [p]
  {
    assert (wanted + [p])[..|wanted|] == wanted;
  }

  class AuditTable {
    var rows: seq<Pair>

    constructor (initial: seq<Pair>)
      ensures rows == initial
    {
      rows := initial;
    }

    /** A plain INSERT: the table has no unique key on the pair. */
    method Insert(p: Pair, raises: bool) returns (ok: bool)
      modifies this
      ensures ok <==> !raises
      ensures rows == if ok then old(rows) + [p] else old(rows)
    {
      ok := !raises;
      if ok {
        rows := rows + [p];
      }
    }
  }

  /** Cache coherence: the table holds the rows added for the pairs done so far, and the
      in-memory set holds exactly the loaded pairs and those rows. */
  ghost predicate Coherent(rows: seq<Pair>, existing: set<Pair>, written: nat, start: seq<Pair>, have: set<Pair>,
                           done: seq<Pair>, failing: set<Pair>) {
    var added := Added(have, done, failing);
    rows == start + added && existing == have + (set p | p in added) && written == |added|
  }

  /** One component. */
  method AuditPair(table: AuditTable, p: Pair, existing: set<Pair>, written: nat, failing: set<Pair>,
                   ghost start: seq<Pair>, ghost have: set<Pair>, ghost done: seq<Pair>)
      returns (now: set<Pair>, total: nat)
    requires Coherent(table.rows, existing, written, start, have, done, failing)
    modifies table
    ensures Coherent(table.rows, now, total, start, have, done + [p], failing)
  {
    now, total := existing, written;
    AddedSnoc(have, done, failing, p);
    if p !in existing {
      var ok := table.Insert(p, p in failing);
      if ok {
        total, now := written + 1, existing + {p};
      }
    }
  }

  /** The components of one decision. */
  method AuditDecision(table: AuditTable, s: Scored, existing: set<Pair>, written: nat, failing: set<Pair>,
                       ghost start: seq<Pair>, ghost have: set<Pair>, ghost done: seq<Pair>)
      returns (now: set<Pair>, total: nat)
    requires Coherent(table.rows, existing, written, start, have, done, failing)
    modifies table
    ensures Coherent(table.rows, now, total, start, have, done + PairsOf(s.id, s.components), failing)
  {
    now, total := existing, written;
    ghost var all := done;
    for j := 0 to |s.components|
      invariant all == done + PairsOf(s.id, s.components[..j])
      invariant Coherent(table.rows, now, total, start, have, all, failing)
    {
      var name := s.components[j];
      assert s.components[..j + 1][..j] == s.components[..j];
      if name != "" {
        now, total := AuditPair(table, (s.id, name), now, total, failing, start, have, all);
        all := all + [(s.id, name)];
      }
    }
    assert s.components[..|s.components|] == s.components;
  }

  /** persist_score_component_inputs_for_wallet_decisions over the scoped decisions. */
  method PersistComponentInputs(table: AuditTable, scored: seq<Scored>, preloadFails: bool, failing: set<Pair>)
      returns (written: nat)
    modifies table
    ensures var added := Added(Preload(old(table.rows), Ids(scored), preloadFails), Wanted(scored), failing);
            table.rows == old(table.rows) + added && written == |added|
  {
    ghost var start, have := table.rows, Preload(table.rows, Ids(scored), preloadFails);
    var existing := Preload(table.rows, Ids(scored), preloadFails);
    written := 0;
    for i := 0 to |scored|
      invariant Coherent(table.rows, existing, written, start, have, Wanted(scored[..i]), failing)
    {
      assert scored[..i + 1][..i] == scored[..i];
      existing, written := AuditDecision(table, scored[i], existing, written, failing, start, have, Wanted(scored[..i]));
    }
    assert scored[..|scored|] == scored;
  }

  // ---- what the audit guarantees ---------------------------------------------------------------

  lemma {:induction false} WantedIds(scored: seq<Scored>)
    ensures forall p :: p in Wanted(scored) ==> p.0 in Ids(scored)
  {
    if scored != [] {
      var n := |scored| - 1;
      WantedIds(scored[..n]);
      assert scored == scored[..n] + [scored[n]];
      PairsHaveId(scored[n].id, scored[n].components);
    }
  }

  lemma {:induction false} PairsHaveId(id: int, names: seq<string>)
    ensures forall p :: p in PairsOf(id, names) ==> p.0 == id
  {
    if names != [] {
      PairsHaveId(id, names[..|names| - 1]);
    }
  }

  lemma {:induction false} CountOfAbsent(s: seq<Pair>, p: Pair)
    requires NoDuplicates(s)
    ensures multiset(s)[p] == if p in s then 1 else 0
  {
    if s != [] {
      var n := |s| - 1;
      CountOfAbsent(s[..n], p);
      assert s == s[..n] + [s[n]];
    }
  }

  /** A pair is wanted when a scored decision with its id has a component of its name, which is not
      empty. */
  lemma {:induction false} WantedAre(scored: seq<Scored>, p: Pair)
    ensures p in Wanted(scored) <==> p.1 != "" && exists s :: s in scored && s.id == p.0 && p.1 in s.components
  {
    if scored != [] {
      var n := |scored| - 1;
      WantedAre(scored[..n], p);
      assert scored == scored[..n] + [scored[n]];
      PairsAre(scored[n].id, scored[n].components, p);
    }
  }

  lemma {:induction false} PairsAre(id: int, names: seq<string>, p: Pair)
    ensures p in PairsOf(id, names) <==> p.0 == id && p.1 != "" && p.1 in names
  {
    if names != [] {
      var n := |names| - 1;
      PairsAre(id, names[..n], p);
      assert names == names[..n] + [names[n]];
    }
  }

  /** The table after a call in which these inserts raise. */
  function After(rows: seq<Pair>, scored: seq<Scored>, preloadFails: bool, failing: set<Pair>): seq<Pair> {
    rows + Added(Preload(rows, Ids(scored), preloadFails), Wanted(scored), failing)
  }

  /** After a call a wanted pair whose insert does not raise has exactly as many rows as before, or
      one when it had none; unless the pre-load failed, when it has one more than before. Every
      other pair keeps its rows. */
  lemma AuditCounts(rows: seq<Pair>, scored: seq<Scored>, preloadFails: bool, failing: set<Pair>, p: Pair)
    ensures multiset(After(rows, scored, preloadFails, failing))[p]
            == if p !in Wanted(scored) || p in failing then multiset(rows)[p]
               else if preloadFails then multiset(rows)[p] + 1
               else Max(1, multiset(rows)[p])
  {
    var have := Preload(rows, Ids(scored), preloadFails);
    WantedIds(scored);
    AddedOnce(have, Wanted(scored), failing);
    CountOfAbsent(Added(have, Wanted(scored), failing), p);
    if p in rows {
      assert multiset(rows)[p] > 0;
    }
  }

  /** A call keeps the table free of duplicate pairs exactly when its pre-load succeeded or the
      table had none of the wanted pairs whose insert did not raise. */
  lemma AuditStaysUniqueExactlyWhen(rows: seq<Pair>, scored: seq<Scored>, preloadFails: bool, failing: set<Pair>)
    requires forall p :: multiset(rows)[p] <= 1
    ensures (forall p :: multiset(After(rows, scored, preloadFails, failing))[p] <= 1)
            <==> !preloadFails || forall p :: p in Wanted(scored) && p !in failing ==> p !in rows
  {
    forall p ensures multiset(After(rows, scored, preloadFails, failing))[p]
                     == if p !in Wanted(scored) || p in failing then multiset(rows)[p]
                        else if preloadFails then multiset(rows)[p] + 1
                        else Max(1, multiset(rows)[p])
    {
      AuditCounts(rows, scored, preloadFails, failing, p);
    }
    if preloadFails {
      forall p | p in Wanted(scored) && p !in failing
        ensures multiset(After(rows, scored, true, failing))[p] <= 1 <==> p !in rows
      {
        assert p in rows <==> multiset(rows)[p] > 0;
      }
    }
  }

  lemma HasElement(s: seq<Pair>)
    requires s != []
    ensures exists p :: p in s
  {
    assert s[0] in s;
  }

  /** An immediate second call whose pre-load succeeds writes exactly what the first call's
      failed inserts left out, even when the first call's pre-load had failed; so it writes
      nothing when none of them had. */
  lemma SecondAuditWritesTheRest(rows: seq<Pair>, scored: seq<Scored>, preloadFails: bool, failing: set<Pair>)
    ensures var once := After(rows, scored, preloadFails, failing);
            var more := Added(Preload(once, Ids(scored), false), Wanted(scored), {});
            && After(once, scored, false, {}) == once + more
            && (forall p :: p in more <==> p in Wanted(scored) && p in failing && p !in rows)
            && (failing == {} ==> After(once, scored, false, {}) == once)
  {
    var once := After(rows, scored, preloadFails, failing);
    var have := Preload(once, Ids(scored), false);
    WantedIds(scored);
    forall p | p in Wanted(scored) ensures p in have <==> p in rows || p !in failing {
      assert p in once <==> p in rows || p in Added(Preload(rows, Ids(scored), preloadFails), Wanted(scored), failing);
    }
    var more := Added(have, Wanted(scored), {});
    if failing == {} && more != [] {
      HasElement(more);
    }
  }
}
