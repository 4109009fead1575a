/** The backfill loop: the metadata and the provenance of one trade share a savepoint. */
module BackfillRun {
  import opened Basics
  import opened Transactions
  import opened Backfill
  import Identity

  datatype MergeStatus = Filled | Unchanged | Conflict | Unavailable

  /** The source_trades columns a run selects; metadata is NULL or the stored text. */
  datatype Trade = Trade(id: string, marketSourceId: string, token: Option<string>, metadata: Option<string>)

  /** A provenance payload: its hash leaves the reason codes out. */
  datatype Evidence = Evidence(hash: string, reasonCodes: string)

  datatype Enrichment = Enrichment(enrichmentId: string, evidence: Evidence, createdAt: int, updatedAt: int)

  /** source_trades.metadata_json and source_trade_enrichments, each by internal trade id. */
  datatype Db = Db(metadata: map<string, Option<string>>, provenance: map<string, Enrichment>)

  /** The two modules that the loop calls: the metadata merge and the provenance payload. */
  datatype Rules = Rules(
    merge: (Trade, Option<string>) -> (string, MergeStatus),
    evidence: (Trade, string, GammaResult, MergeStatus) -> Evidence)

  datatype Fault = NoFault | MetadataWriteFails | ProvenanceWriteFails

  /** Everything a run meets: the provider's answers, the clock and the storage errors. */
  datatype Work = Work(
    rules: Rules, gamma: map<string, GammaResult>, now: nat -> int, fault: nat -> Fault)

  // ---- one trade ------------------------------------------------------------------------

  function ResultFor(w: Work, t: Trade): GammaResult {
    var key := Identity.Lower(t.marketSourceId);
    if key in w.gamma then w.gamma[key] else GammaResult(NotFound, "")
  }

  function Merge(w: Work, t: Trade): (string, MergeStatus) {
    var result := ResultFor(w, t);
    w.rules.merge(t, if result.state.Found? then Some(result.market) else None)
  }

  predicate WritesMetadata(s: MergeStatus) { s.Filled? || s.Unchanged? }

  function EvidenceFor(w: Work, t: Trade): Evidence {
    w.rules.evidence(t, Merge(w, t).0, ResultFor(w, t), Merge(w, t).1)
  }

  function MetadataAfter(w: Work, t: Trade, current: Option<string>): Option<string> {
    if WritesMetadata(Merge(w, t).1) then Some(Merge(w, t).0) else current
  }

  /** write_provenance: insert, keep on an equal hash, or update in place. */
  function EnrichmentAfter(prior: Option<Enrichment>, id: string, ev: Evidence, now: int): Enrichment {
    match prior
    case None => Enrichment("bk:" + id, ev, now, now)
    case Some(row) =>
      if row.evidence.hash == ev.hash then row else Enrichment(row.enrichmentId, ev, row.createdAt, now)
  }

  function Row(db: Db, id: string): Option<Enrichment> {
    if id in db.provenance then Some(db.provenance[id]) else None
  }

  /** The whole effect of one trade. */
  function Apply(db: Db, w: Work, t: Trade, now: int): Db {
    var metadata :=
      if t.id in db.metadata then db.metadata[t.id := MetadataAfter(w, t, db.metadata[t.id])] else db.metadata;
    Db(metadata, db.provenance[t.id := EnrichmentAfter(Row(db, t.id), t.id, EvidenceFor(w, t), now)])
  }

  function After(db: Db, w: Work, trades: seq<Trade>): Db {
    if trades == [] then db
    else
      var n := |trades| - 1;
      Apply(After(db, w, trades[..n]), w, trades[n], w.now(n))
  }

  lemma AfterSnoc(db: Db, w: Work, trades: seq<Trade>, i: nat)
    requires i < |trades|
    ensures After(db, w, trades[..i + 1]) == Apply(After(db, w, trades[..i]), w, trades[i], w.now(i))
  {
    assert trades[..i + 1][..i] == trades[..i];
  }

  /** The rows of source_trades neither appear nor disappear. */
  lemma {:induction false} TradesStay(db: Db, w: Work, trades: seq<Trade>)
    ensures After(db, w, trades).metadata.Keys == db.metadata.Keys
  {
    if trades != [] {
      TradesStay(db, w, trades[..|trades| - 1]);
    }
  }

  /** Processing trade i raises: its row is gone or its metadata write fails, when there is
      metadata to write, or its provenance write fails. */
  predicate Raises(db: Db, w: Work, trades: seq<Trade>, i: nat)
    requires i < |trades|
  {
    var t := trades[i];
    || (WritesMetadata(Merge(w, t).1) && (t.id !in db.metadata || w.fault(i).MetadataWriteFails?))
    || w.fault(i).ProvenanceWriteFails?
  }

  /** The trade's provenance row is inserted or rewritten. */
  predicate Changes(db: Db, w: Work, t: Trade) {
    t.id !in db.provenance || db.provenance[t.id].evidence.hash != EvidenceFor(w, t).hash
  }

  function Written(db: Db, w: Work, trades: seq<Trade>): nat {
    if trades == [] then 0
    else
      var n := |trades| - 1;
      Written(db, w, trades[..n]) + (if Changes(After(db, w, trades[..n]), w, trades[n]) then 1 else 0)
  }

  lemma WrittenSnoc(db: Db, w: Work, trades: seq<Trade>, i: nat)
    requires i < |trades|
    ensures Written(db, w, trades[..i + 1])
            == Written(db, w, trades[..i]) + (if Changes(After(db, w, trades[..i]), w, trades[i]) then 1 else 0)
  {
    assert trades[..i + 1][..i] == trades[..i];
  }

  // ---- the loop -------------------------------------------------------------------------------

  datatype Counts = Counts(
    selected: nat, filled: nat, kept: nat, conflict: nat, unavailable: nat, providerError: nat, written: nat)

  /** reconcile_metadata_json with replacement allowed; false stands for a status other than
      updated and reused. */
  method ReconcileMetadata(conn: Connection<Db>, id: string, metadata: string, fails: bool) returns (ok: bool)
    requires conn.saved.Some?
    modifies conn`working, conn`began
    ensures ok <==> id in old(conn.working.metadata) && !fails
    ensures ok ==> conn.working == old(conn.working).(metadata := old(conn.working.metadata)[id := Some(metadata)])
    ensures conn.began == old(conn.began)
  {
    if id !in conn.working.metadata || fails {
      return false;
    }
    if conn.working.metadata[id] != Some(metadata) {
      conn.Write(conn.working.(metadata := conn.working.metadata[id := Some(metadata)]));
    } else {
      assert conn.working.metadata[id := Some(metadata)] == conn.working.metadata;
    }
    return true;
  }

  /** write_provenance: the trade keeps one row, whose id and creation date never change. */
  method WriteProvenance(conn: Connection<Db>, id: string, ev: Evidence, now: int)
      returns (changed: bool, isNew: bool)
    requires conn.saved.Some?
    modifies conn`working, conn`began
    ensures conn.working
            == old(conn.working).(provenance :=
                 old(conn.working.provenance)[id := EnrichmentAfter(Row(old(conn.working), id), id, ev, now)])
    ensures isNew <==> id !in old(conn.working.provenance)
    ensures changed <==> isNew || old(conn.working.provenance[id].evidence.hash) != ev.hash
    ensures !changed ==> conn.working == old(conn.working)
    ensures conn.began == old(conn.began)
  {
    var rows := conn.working.provenance;
    if id !in rows {
      conn.Write(conn.working.(provenance := rows[id := Enrichment("bk:" + id, ev, now, now)]));
      return true, true;
    }
    var row := rows[id];
    if row.evidence.hash == ev.hash {
      assert rows[id := row] == rows;
      return false, false;
    }
    conn.Write(conn.working.(provenance := rows[id := Enrichment(row.enrichmentId, ev, row.createdAt, now)]));
    return true, false;
  }

  /** One trade under its savepoint: its whole effect is durable, or nothing of it is. */
  method ProcessTrade(conn: Connection<Db>, w: Work, t: Trade, fault: Fault, now: int)
      returns (ok: bool, changed: bool)
    requires conn.Idle()
    modifies conn
    ensures conn.Idle()
    ensures ok <==> !(WritesMetadata(Merge(w, t).1)
                      && (t.id !in old(conn.durable.metadata) || fault.MetadataWriteFails?))
                    && !fault.ProvenanceWriteFails?
    ensures conn.durable == if ok then Apply(old(conn.durable), w, t, now) else old(conn.durable)
    ensures ok ==> (changed <==> Changes(old(conn.durable), w, t))
  {
    var (newMeta, status) := Merge(w, t);
    changed := false;
    conn.Savepoint();
    ok := true;
    if WritesMetadata(status) {
      ok := ReconcileMetadata(conn, t.id, newMeta, fault.MetadataWriteFails?);
    } else if t.id in conn.working.metadata {
      assert conn.working.metadata[t.id := conn.working.metadata[t.id]] == conn.working.metadata;
    }
    if ok && !fault.ProvenanceWriteFails? {
      var isNew;
      changed, isNew := WriteProvenance(conn, t.id, EvidenceFor(w, t), now);
      conn.Release();
    } else {
      ok := false;
      conn.RollbackTo();
      conn.Release();
    }
  }

  function CountOf(w: Work, trades: seq<Trade>, s: MergeStatus): nat {
    if trades == [] then 0
    else CountOf(w, trades[..|trades| - 1], s) + (if Merge(w, trades[|trades| - 1]).1 == s then 1 else 0)
  }

  /** The merge counters are those of these trades. */
  predicate Tallied(counts: Counts, w: Work, trades: seq<Trade>) {
    && counts.filled == CountOf(w, trades, Filled) && counts.kept == CountOf(w, trades, Unchanged)
    && counts.conflict == CountOf(w, trades, Conflict) && counts.unavailable == CountOf(w, trades, Unavailable)
  }

  function Tally(counts: Counts, s: MergeStatus): Counts {
    match s
    case Filled => counts.(filled := counts.filled + 1)
    case Unchanged => counts.(kept := counts.kept + 1)
    case Conflict => counts.(conflict := counts.conflict + 1)
    case Unavailable => counts.(unavailable := counts.unavailable + 1)
  }

  lemma TallyStep(counts: Counts, w: Work, trades: seq<Trade>, i: nat)
    requires i < |trades| && Tallied(counts, w, trades[..i])
    ensures Tallied(Tally(counts, Merge(w, trades[i]).1), w, trades[..i + 1])
  {
    assert trades[..i + 1][..i] == trades[..i];
  }

  /** Every trade is counted under exactly one merge status. */
  lemma {:induction false} StatusesPartition(counts: Counts, w: Work, trades: seq<Trade>)
    requires Tallied(counts, w, trades)
    ensures counts.filled + counts.kept + counts.conflict + counts.unavailable == |trades|
    decreases |trades|
  {
    if trades != [] {
      var n := |trades| - 1;
      StatusesPartition(Counts(0, CountOf(w, trades[..n], Filled), CountOf(w, trades[..n], Unchanged),
                               CountOf(w, trades[..n], Conflict), CountOf(w, trades[..n], Unavailable), 0, 0),
                        w, trades[..n]);
    }
  }

  /** The first i trades are processed, none of them raised, and written counts their changes. */
  ghost predicate Processed(db: Db, now: Db, w: Work, trades: seq<Trade>, i: nat, written: nat)
    requires i <= |trades|
  {
    && now == After(db, w, trades[..i]) && written == Written(db, w, trades[..i])
    && forall k :: 0 <= k < i ==> !Raises(db, w, trades, k)
  }

  lemma ProcessedStep(db: Db, now: Db, w: Work, trades: seq<Trade>, i: nat, written: nat)
    requires i < |trades| && Processed(db, now, w, trades, i, written)
    ensures now.metadata.Keys == db.metadata.Keys
    ensures !Raises(db, w, trades, i) ==>
              Processed(db, Apply(now, w, trades[i], w.now(i)), w, trades, i + 1,
                        written + (if Changes(now, w, trades[i]) then 1 else 0))
  {
    AfterSnoc(db, w, trades, i);
    WrittenSnoc(db, w, trades, i);
    TradesStay(db, w, trades[..i]);
  }

  /** _run_async after the provider batch. When trade k raises, the database holds exactly the
      effects of the trades before it. */
  method RunBackfill(conn: Connection<Db>, w: Work, trades: seq<Trade>, doWrite: bool)
      returns (failedAt: Option<nat>, counts: Counts)
    requires conn.Idle()
    modifies conn
    ensures conn.Idle()
    ensures !doWrite ==> failedAt.None? && conn.durable == old(conn.durable) && counts.written == 0
    ensures failedAt.Some? ==>
              && failedAt.value < |trades| && Raises(old(conn.durable), w, trades, failedAt.value)
              && Processed(old(conn.durable), conn.durable, w, trades, failedAt.value, counts.written)
    ensures doWrite && failedAt.None? ==>
              Processed(old(conn.durable), conn.durable, w, trades, |trades|, counts.written)
    ensures counts.selected == |trades|
    ensures failedAt.None? ==>
              && Tallied(counts, w, trades) && counts.providerError == CountErrors(w, trades)
              && counts.filled + counts.kept + counts.conflict + counts.unavailable == counts.selected
  {
    ghost var start := conn.durable;
    counts := Counts(|trades|, 0, 0, 0, 0, 0, 0);
    for i := 0 to |trades|
      invariant conn.Idle()
      invariant doWrite ==> Processed(start, conn.durable, w, trades, i, counts.written)
      invariant !doWrite ==> conn.durable == start && counts.written == 0
      invariant counts.selected == |trades| && Tallied(counts, w, trades[..i])
      invariant counts.providerError == CountErrors(w, trades[..i])
    {
      var t := trades[i];
      TallyStep(counts, w, trades, i);
      assert trades[..i + 1][..i] == trades[..i];
      counts := Tally(counts, Merge(w, t).1);
      if ResultFor(w, t).state.ProviderError? {
        counts := counts.(providerError := counts.providerError + 1);
      }
      if doWrite {
        ProcessedStep(start, conn.durable, w, trades, i, counts.written);
        var ok, changed := ProcessTrade(conn, w, t, w.fault(i), w.now(i));
        if !ok {
          return Some(i), counts;
        }
        if changed {
          counts := counts.(written := counts.written + 1);
        }
      }
    }
    assert trades[..|trades|] == trades;
    StatusesPartition(counts, w, trades);
    failedAt := None;
  }

  // ---- what a completed run means ------------------------------------------------------------

  ghost predicate DistinctTrades(trades: seq<Trade>) {
    forall i, j :: 0 <= i < j < |trades| ==> trades[i].id != trades[j].id
  }

  /** A row of a trade that the run did not select is as it was. */
  lemma {:induction false} OthersUntouched(db: Db, w: Work, trades: seq<Trade>, id: string)
    requires forall i :: 0 <= i < |trades| ==> trades[i].id != id
    ensures Row(After(db, w, trades), id) == Row(db, id)
    ensures id in db.metadata ==> id in After(db, w, trades).metadata
                                  && After(db, w, trades).metadata[id] == db.metadata[id]
  {
    if trades != [] {
      OthersUntouched(db, w, trades[..|trades| - 1], id);
      TradesStay(db, w, trades[..|trades| - 1]);
    }
  }

  /** The provider's answer for the trade's market: by its id in lower case, and not found when the
      batch has none. */
  ghost predicate Answered(w: Work, t: Trade, result: GammaResult) {
    forall key :: Identity.Lowered(t.marketSourceId, key) ==>
      result == if key in w.gamma then w.gamma[key] else GammaResult(NotFound, "")
  }

  lemma AnswerIs(w: Work, t: Trade)
    ensures Answered(w, t, ResultFor(w, t))
    ensures forall result :: Answered(w, t, result) ==> result == ResultFor(w, t)
  {
    var key := Identity.Lower(t.marketSourceId);
    Identity.LowerExactlyWhen(t.marketSourceId, key);
    forall k | Identity.Lowered(t.marketSourceId, k) ensures k == key {
      Identity.LowerExactlyWhen(t.marketSourceId, k);
    }
  }

  /** The merge of the trade with a market that was found. */
  ghost predicate Merged(w: Work, t: Trade, meta: string, status: MergeStatus) {
    forall result :: Answered(w, t, result) ==>
      (meta, status) == w.rules.merge(t, if result.state == Found then Some(result.market) else None)
  }

  ghost predicate Evident(w: Work, t: Trade, ev: Evidence) {
    forall result, meta, status :: Answered(w, t, result) && Merged(w, t, meta, status) ==>
      ev == w.rules.evidence(t, meta, result, status)
  }

  lemma MergeIs(w: Work, t: Trade)
    ensures Merged(w, t, Merge(w, t).0, Merge(w, t).1) && Evident(w, t, EvidenceFor(w, t))
    ensures forall meta, status :: Merged(w, t, meta, status) ==> (meta, status) == Merge(w, t)
    ensures forall ev :: Evident(w, t, ev) ==> ev == EvidenceFor(w, t)
  {
    AnswerIs(w, t);
    assert Answered(w, t, ResultFor(w, t));
    assert Merged(w, t, Merge(w, t).0, Merge(w, t).1);
  }

  /** What a run makes of a selected trade: the merged metadata when the merge filled or kept it,
      and one provenance row. The row is new, or left alone when its hash is the same, or has new
      evidence under its old id and creation date. */
  ghost predicate Enriched(db: Db, after: Db, w: Work, t: Trade, now: int) {
    forall meta, status, ev :: Merged(w, t, meta, status) && Evident(w, t, ev) ==>
      && t.id in db.metadata && t.id in after.metadata && t.id in after.provenance
      && after.metadata[t.id] == (if status == Filled || status == Unchanged then Some(meta) else db.metadata[t.id])
      && after.provenance[t.id]
         == (if t.id !in db.provenance then Enrichment("bk:" + t.id, ev, now, now)
             else if db.provenance[t.id].evidence.hash == ev.hash then db.provenance[t.id]
             else Enrichment(db.provenance[t.id].enrichmentId, ev, db.provenance[t.id].createdAt, now))
  }

  lemma {:induction false} EffectIs(db: Db, w: Work, trades: seq<Trade>, i: nat)
    requires DistinctTrades(trades) && i < |trades| && trades[i].id in db.metadata
    ensures var t, after := trades[i], After(db, w, trades);
            && t.id in after.metadata && after.metadata[t.id] == MetadataAfter(w, t, db.metadata[t.id])
            && Row(after, t.id) == Some(EnrichmentAfter(Row(db, t.id), t.id, EvidenceFor(w, t), w.now(i)))
  {
    var n := |trades| - 1;
    TradesStay(db, w, trades[..n]);
    if i < n {
      EffectIs(db, w, trades[..n], i);
    } else {
      OthersUntouched(db, w, trades[..n], trades[n].id);
    }
  }

  /** Each selected trade is so enriched, whatever other trades the run processed. */
  lemma EffectOnTrade(db: Db, w: Work, trades: seq<Trade>, i: nat)
    requires DistinctTrades(trades) && i < |trades| && trades[i].id in db.metadata
    ensures Enriched(db, After(db, w, trades), w, trades[i], w.now(i))
  {
    EffectIs(db, w, trades, i);
    MergeIs(w, trades[i]);
  }

  // ---- what the run counts ------------------------------------------------------------------------

  /** The merge ends with this status. */
  ghost predicate EndsWith(w: Work, t: Trade, s: MergeStatus) {
    forall meta, status :: Merged(w, t, meta, status) ==> status == s
  }

  ghost predicate AnsweredByError(w: Work, t: Trade) {
    forall result :: Answered(w, t, result) ==> result.state == ProviderError
  }

  lemma StatusIs(w: Work, t: Trade, s: MergeStatus)
    ensures EndsWith(w, t, s) <==> Merge(w, t).1 == s
    ensures AnsweredByError(w, t) <==> ResultFor(w, t).state == ProviderError
  {
    MergeIs(w, t);
    AnswerIs(w, t);
  }

  ghost function EndingWith(w: Work, trades: seq<Trade>, s: MergeStatus): set<nat> {
    set i: nat | i < |trades| && EndsWith(w, trades[i], s)
  }

  lemma EndingSnoc(w: Work, trades: seq<Trade>, n: nat, s: MergeStatus)
    requires |trades| == n + 1
    ensures |EndingWith(w, trades, s)| == |EndingWith(w, trades[..n], s)| + (if EndsWith(w, trades[n], s) then 1 else 0)
  {
    var all := if EndsWith(w, trades[n], s) then EndingWith(w, trades[..n], s) + {n} else EndingWith(w, trades[..n], s);
    assert EndingWith(w, trades, s) == all;
  }

  lemma {:induction false} CountsAreTrades(w: Work, trades: seq<Trade>, s: MergeStatus)
    ensures CountOf(w, trades, s) == |EndingWith(w, trades, s)|
  {
    if trades != [] {
      var n := |trades| - 1;
      CountsAreTrades(w, trades[..n], s);
      StatusIs(w, trades[n], s);
      EndingSnoc(w, trades, n, s);
    }
  }

  function CountErrors(w: Work, trades: seq<Trade>): nat {
    if trades == [] then 0
    else CountErrors(w, trades[..|trades| - 1]) + (if ResultFor(w, trades[|trades| - 1]).state.ProviderError? then 1 else 0)
  }

  ghost function Erring(w: Work, trades: seq<Trade>): set<nat> {
    set i: nat | i < |trades| && AnsweredByError(w, trades[i])
  }

  lemma ErringSnoc(w: Work, trades: seq<Trade>, n: nat)
    requires |trades| == n + 1
    ensures |Erring(w, trades)| == |Erring(w, trades[..n])| + (if AnsweredByError(w, trades[n]) then 1 else 0)
  {
    var all := if AnsweredByError(w, trades[n]) then Erring(w, trades[..n]) + {n} else Erring(w, trades[..n]);
    assert Erring(w, trades) == all;
  }

  lemma {:induction false} ErrorsAreTrades(w: Work, trades: seq<Trade>)
    ensures CountErrors(w, trades) == |Erring(w, trades)|
  {
    if trades != [] {
      var n := |trades| - 1;
      ErrorsAreTrades(w, trades[..n]);
      AnswerIs(w, trades[n]);
      ErringSnoc(w, trades, n);
    }
  }

  /** The trade has no provenance row yet, or one with another hash. */
  ghost predicate NeedsRow(db: Db, w: Work, t: Trade) {
    forall ev :: Evident(w, t, ev) ==> t.id in db.provenance ==> db.provenance[t.id].evidence.hash != ev.hash
  }

  ghost function Needing(db: Db, w: Work, trades: seq<Trade>): set<nat> {
    set i: nat | i < |trades| && NeedsRow(db, w, trades[i])
  }

  lemma NeedingSnoc(db: Db, w: Work, trades: seq<Trade>, n: nat)
    requires |trades| == n + 1
    ensures |Needing(db, w, trades)| == |Needing(db, w, trades[..n])| + (if NeedsRow(db, w, trades[n]) then 1 else 0)
  {
    var all := if NeedsRow(db, w, trades[n]) then Needing(db, w, trades[..n]) + {n} else Needing(db, w, trades[..n]);
    assert Needing(db, w, trades) == all;
  }

  lemma ChangesAreNeeded(db: Db, now: Db, w: Work, t: Trade)
    requires Row(now, t.id) == Row(db, t.id)
    ensures Changes(now, w, t) <==> NeedsRow(db, w, t)
  {
    MergeIs(w, t);
  }

  /** A run over distinct trades writes exactly the provenance rows that were missing or had another
      hash when it started. */
  lemma {:induction false} WrittenAreNeeded(db: Db, w: Work, trades: seq<Trade>)
    requires DistinctTrades(trades)
    ensures Written(db, w, trades) == |Needing(db, w, trades)|
  {
    if trades != [] {
      var n := |trades| - 1;
      WrittenAreNeeded(db, w, trades[..n]);
      OthersUntouched(db, w, trades[..n], trades[n].id);
      ChangesAreNeeded(db, After(db, w, trades[..n]), w, trades[n]);
      NeedingSnoc(db, w, trades, n);
    }
  }

  /** A trade fails exactly when metadata had to be stored and its row is gone or the write failed,
      or when the provenance write failed. */
  lemma RaisesExactlyWhen(db: Db, w: Work, trades: seq<Trade>, i: nat)
    requires i < |trades|
    ensures Raises(db, w, trades, i)
            <==> || w.fault(i) == ProvenanceWriteFails
                 || ((EndsWith(w, trades[i], Filled) || EndsWith(w, trades[i], Unchanged))
                     && (trades[i].id !in db.metadata || w.fault(i) == MetadataWriteFails))
  {
    StatusIs(w, trades[i], Filled);
    StatusIs(w, trades[i], Unchanged);
  }

  /** The merge module accepts its own output, and the evidence of such a replay differs at
      most in its reason codes. */
  ghost predicate Replayable(w: Work, t: Trade) {
    var (meta, status) := Merge(w, t);
    var again := t.(metadata := Some(meta));
    WritesMetadata(status) ==>
      && Merge(w, again).0 == meta && WritesMetadata(Merge(w, again).1)
      && EvidenceFor(w, again).hash == EvidenceFor(w, t).hash
  }

  /** The same selection read again after the run. */
  function Reselected(db: Db, trades: seq<Trade>): seq<Trade>
    requires forall i :: 0 <= i < |trades| ==> trades[i].id in db.metadata
  {
    seq(|trades|, i requires 0 <= i < |trades| => trades[i].(metadata := db.metadata[trades[i].id]))
  }

  /** A trade that would not change anything. */
  predicate Settled(db: Db, w: Work, t: Trade) {
    && t.id in db.metadata && MetadataAfter(w, t, db.metadata[t.id]) == db.metadata[t.id]
    && !Changes(db, w, t)
  }

  lemma {:induction false} SettledTradesDoNothing(db: Db, w: Work, trades: seq<Trade>)
    requires forall i :: 0 <= i < |trades| ==> Settled(db, w, trades[i])
    ensures After(db, w, trades) == db && Written(db, w, trades) == 0
  {
    if trades != [] {
      var n := |trades| - 1;
      SettledTradesDoNothing(db, w, trades[..n]);
      var id := trades[n].id;
      assert Settled(db, w, trades[n]);
      assert db.metadata[id := db.metadata[id]] == db.metadata;
      assert db.provenance[id := db.provenance[id]] == db.provenance;
    }
  }

  /** An equivalent replay writes nothing: not one row of the database differs after it. */
  lemma ReplayWritesNothing(db: Db, w: Work, trades: seq<Trade>)
    requires DistinctTrades(trades)
    requires forall i :: 0 <= i < |trades| ==>
               && trades[i].id in db.metadata && trades[i].metadata == db.metadata[trades[i].id]
               && Replayable(w, trades[i])
    ensures forall i :: 0 <= i < |trades| ==> trades[i].id in After(db, w, trades).metadata
    ensures var once := After(db, w, trades);
            After(once, w, Reselected(once, trades)) == once && Written(once, w, Reselected(once, trades)) == 0
  {
    var once := After(db, w, trades);
    TradesStay(db, w, trades);
    var again := Reselected(once, trades);
    forall i | 0 <= i < |again| ensures Settled(once, w, again[i]) {
      EffectIs(db, w, trades, i);
      assert Replayable(w, trades[i]);
    }
    SettledTradesDoNothing(once, w, again);
  }
}
