/** How long a wallet waits for a slice while the corpus changes from run to run. */
module ScanWaiting {
  import opened Basics
  import opened Identity
  import opened ScanStore
  import opened WalletSlice
  import opened ScanRuns
  import opened ScanHistory
  import opened ScanLedger

  // ---- the queue ------------------------------------------------------------------------------

  /** The addresses of the corpus that sort before a. */
  function Before(corpus: seq<string>, a: string): (r: seq<string>)
    ensures forall b :: b in r <==> b in corpus && Less(b, a)
  {
    if corpus == [] then []
    else
      var n := |corpus| - 1;
      assert corpus == corpus[..n] + [corpus[n]];
      Before(corpus[..n], a) + (if Less(corpus[n], a) then [corpus[n]] else [])
  }

  /** The backlog wallets of the corpus that sort before a. */
  function Queue(st: Store, corpus: seq<string>, a: string): set<string> {
    Backlog(st, Before(corpus, a))
  }

  predicate Sliced(st: Store, e: Event, a: string) {
    e.Run? && a in SliceBy(st, e)
  }

  /** By how many wallets a lossy classification makes the queue look longer than it is. */
  function Misjudged(st: Store, e: Event, a: string): int
    requires e.Run?
  {
    Rank(e.corpus, Needs(st, e.lost, e.corpus), a) - |Queue(st, e.corpus, a)|
  }

  /** A run slices an address of its corpus exactly when the queue looks shorter than the cap. */
  lemma SlicedExactlyWhen(st: Store, e: Event, a: string)
    requires e.Run?
    ensures Sliced(st, e, a) <==> a in e.corpus && |Queue(st, e.corpus, a)| + Misjudged(st, e, a) < e.cap
  {
    SliceUnderFits(st, e.corpus, e.cap, e.lost);
    if a in e.corpus {
      SliceMembership(e.corpus, Needs(st, e.lost, e.corpus), e.cap, a);
    }
  }

  lemma SlicedWhenShort(st: Store, e: Event, a: string, n: int)
    requires e.Run? && n == |Queue(st, e.corpus, a)| + Misjudged(st, e, a)
    ensures Sliced(st, e, a) <==> a in e.corpus && n < e.cap
  {
    SlicedExactlyWhen(st, e, a);
  }

  /** A classification that loses no query sees the queue of a backlog wallet as it is. */
  lemma NothingMisjudged(st: Store, e: Event, a: string)
    requires e.Run? && e.lost == NOTHING_LOST && a in Backlog(st, e.corpus)
    ensures Misjudged(st, e, a) == 0
  {
    NothingLostSeesBacklog(st, e.corpus);
    assert (set b | b in e.corpus && Preferred(Backlog(st, e.corpus), b, a)) == Queue(st, e.corpus, a);
  }

  /** One that can tell which wallets have trades, or has lost the keys, hides none of it. */
  lemma NoneHidden(st: Store, e: Event, a: string)
    requires e.Run? && (e.lost.trades ==> e.lost.keys) && a in Backlog(st, e.corpus)
    ensures Misjudged(st, e, a) >= 0
  {
    var needs := Needs(st, e.lost, e.corpus);
    forall b | b in Backlog(st, e.corpus) ensures b in needs {
      BacklogIsSeen(st, e.lost, b);
    }
    SmallerSubset(Queue(st, e.corpus, a), set b | b in e.corpus && Preferred(needs, b, a));
  }

  lemma BacklogIsSeen(st: Store, lost: Lost, b: string)
    requires (lost.trades ==> lost.keys) && StateOf(st, b) != AlreadyScored
    ensures SeenState(st, lost, b) != AlreadyScored
  {
  }

  lemma SmallerSubset(s: set<string>, t: set<string>)
    requires s <= t
    ensures |s| <= |t|
  {
    assert t == s + (t - s);
  }

  // ---- the ledger of the queue ----------------------------------------------------------------

  /** The wallets that come into the queue because the run's corpus has them, and those that go
      because it has them no longer. */
  function Joined(st: Store, e: Event, corpus: seq<string>, a: string): set<string>
    requires e.Run?
  {
    Queue(st, e.corpus, a) - Queue(st, corpus, a)
  }

  function Departed(st: Store, e: Event, corpus: seq<string>, a: string): set<string>
    requires e.Run?
  {
    Queue(st, corpus, a) - Queue(st, e.corpus, a)
  }

  function ClearedAhead(st: Store, key: KeyFunction, e: Event, a: string): set<string>
    requires e.Run?
  {
    ClearedBy(st, key, e, Before(e.corpus, a))
  }

  lemma ClearedFit(st: Store, key: KeyFunction, e: Event, a: string)
    requires e.Run?
    ensures |ClearedAhead(st, key, e, a)| <= e.cap
  {
    SliceUnderFits(st, e.corpus, e.cap, e.lost);
    var slice := SliceBy(st, e);
    AscendingNoDuplicates(slice);
    SizeOfElements(slice);
    SmallerSubset(ClearedAhead(st, key, e, a), Elements(slice));
  }

  /** The wallets that an event brings into the queue, by their trades or with the corpus. */
  function Arrivals(st: Store, e: Event, corpus: seq<string>, a: string): nat {
    match e
    case TradesArrive(_) => |Entered(st, e, Before(corpus, a))|
    case WalletAdded(_, _) => 0
    case Run(_, _, _, _, _) => |Joined(st, e, corpus, a)|
  }

  /** The slots of a run that clear no wallet of the queue. */
  function IdleSlots(st: Store, key: KeyFunction, e: Event, a: string): nat {
    if e.Run? then
      ClearedFit(st, key, e, a);
      e.cap - |ClearedAhead(st, key, e, a)|
    else 0
  }

  function Departures(st: Store, e: Event, corpus: seq<string>, a: string): nat {
    if e.Run? then |Departed(st, e, corpus, a)| else 0
  }

  function SlotsOf(e: Event): nat {
    if e.Run? then e.cap else 0
  }

  /** The corpus that a queue refers to: that of the latest run. */
  function NextCorpus(corpus: seq<string>, e: Event): seq<string> {
    if e.Run? then e.corpus else corpus
  }

  function LastCorpus(corpus: seq<string>, es: seq<Event>): seq<string> {
    if es == [] then corpus else NextCorpus(LastCorpus(corpus, es[..|es| - 1]), es[|es| - 1])
  }

  function TotalArrivals(st: Store, key: KeyFunction, es: seq<Event>, corpus: seq<string>, a: string): nat {
    if es == [] then 0
    else
      var n := |es| - 1;
      TotalArrivals(st, key, es[..n], corpus, a)
      + Arrivals(ExecAll(st, key, es[..n]), es[n], LastCorpus(corpus, es[..n]), a)
  }

  function TotalDepartures(st: Store, key: KeyFunction, es: seq<Event>, corpus: seq<string>, a: string): nat {
    if es == [] then 0
    else
      var n := |es| - 1;
      TotalDepartures(st, key, es[..n], corpus, a)
      + Departures(ExecAll(st, key, es[..n]), es[n], LastCorpus(corpus, es[..n]), a)
  }

  function TotalIdle(st: Store, key: KeyFunction, es: seq<Event>, a: string): nat {
    if es == [] then 0
    else
      var n := |es| - 1;
      TotalIdle(st, key, es[..n], a) + IdleSlots(ExecAll(st, key, es[..n]), key, es[n], a)
  }

  function TotalSlots(es: seq<Event>): nat {
    if es == [] then 0
    else
      var n := |es| - 1;
      TotalSlots(es[..n]) + SlotsOf(es[n])
  }

  lemma SizeOfDifference(s: set<string>, t: set<string>)
    ensures |t| == |s| + |t - s| - |s - t|
  {
    assert s == (s * t) + (s - t) && t == (s * t) + (t - s);
  }

  lemma JoinedAndDeparted(st: Store, e: Event, corpus: seq<string>, a: string)
    requires e.Run?
    ensures |Queue(st, e.corpus, a)|
            == |Queue(st, corpus, a)| + |Joined(st, e, corpus, a)| - |Departed(st, e, corpus, a)|
  {
    SizeOfDifference(Queue(st, corpus, a), Queue(st, e.corpus, a));
  }

  lemma RunClearsAhead(st: Store, key: KeyFunction, e: Event, a: string)
    requires WalletsValid(st.wallets) && e.Run?
    ensures |Queue(Exec(st, key, e), e.corpus, a)| == |Queue(st, e.corpus, a)| - |ClearedAhead(st, key, e, a)|
  {
    EventMovesBacklog(st, key, e, Before(e.corpus, a));
    assert Entered(st, e, Before(e.corpus, a)) == {};
  }

  /** What an event does to the queue. */
  function Change(st: Store, key: KeyFunction, e: Event, corpus: seq<string>, a: string): int {
    Arrivals(st, e, corpus, a) + IdleSlots(st, key, e, a) - Departures(st, e, corpus, a) - SlotsOf(e)
  }

  lemma RunQueueStep(st: Store, key: KeyFunction, e: Event, corpus: seq<string>, a: string)
    requires WalletsValid(st.wallets) && e.Run?
    ensures |Queue(Exec(st, key, e), e.corpus, a)| == |Queue(st, corpus, a)| + Change(st, key, e, corpus, a)
  {
    RunClearsAhead(st, key, e, a);
    JoinedAndDeparted(st, e, corpus, a);
  }

  lemma OtherQueueStep(st: Store, key: KeyFunction, e: Event, corpus: seq<string>, a: string)
    requires WalletsValid(st.wallets) && Allowed(st, e) && !e.Run?
    ensures |Queue(Exec(st, key, e), corpus, a)| == |Queue(st, corpus, a)| + Change(st, key, e, corpus, a)
  {
    EventMovesBacklog(st, key, e, Before(corpus, a));
    assert ClearedBy(st, key, e, Before(corpus, a)) == {};
    if e.WalletAdded? {
      assert Entered(st, e, Before(corpus, a)) == {};
    }
  }

  lemma QueueStep(st: Store, key: KeyFunction, e: Event, corpus: seq<string>, a: string)
    requires WalletsValid(st.wallets) && Allowed(st, e)
    ensures |Queue(Exec(st, key, e), NextCorpus(corpus, e), a)|
            == |Queue(st, corpus, a)| + Change(st, key, e, corpus, a)
  {
    if e.Run? {
      RunQueueStep(st, key, e, corpus, a);
    } else {
      OtherQueueStep(st, key, e, corpus, a);
    }
  }

  /** The queue by its ledger: what it was, the arrivals and the idle slots, less the departures
      and all slots. */
  function Remaining(st: Store, key: KeyFunction, es: seq<Event>, corpus: seq<string>, a: string): int {
    |Queue(st, corpus, a)| + TotalArrivals(st, key, es, corpus, a) + TotalIdle(st, key, es, a)
    - TotalDepartures(st, key, es, corpus, a) - TotalSlots(es)
  }

  lemma RemainingStep(st: Store, key: KeyFunction, es: seq<Event>, corpus: seq<string>, a: string)
    requires es != []
    ensures var n := |es| - 1;
            Remaining(st, key, es, corpus, a)
            == Remaining(st, key, es[..n], corpus, a)
               + Change(ExecAll(st, key, es[..n]), key, es[n], LastCorpus(corpus, es[..n]), a)
  {
  }

  /** The ledger of the queue holds over any history of runs, each with a corpus of its own. */
  lemma {:induction false} QueueLedger(st: Store, key: KeyFunction, es: seq<Event>, corpus: seq<string>, a: string)
    requires WalletsValid(st.wallets) && AllowedAll(st, key, es)
    ensures |Queue(ExecAll(st, key, es), LastCorpus(corpus, es), a)| == Remaining(st, key, es, corpus, a)
  {
    if es != [] {
      var n := |es| - 1;
      QueueLedger(st, key, es[..n], corpus, a);
      HistoryKeepsWallets(st, key, es[..n]);
      QueueStep(ExecAll(st, key, es[..n]), key, es[n], LastCorpus(corpus, es[..n]), a);
      RemainingStep(st, key, es, corpus, a);
    }
  }

  /** Each run's corpus has all of the corpus before it, as the registry does when it only grows. */
  ghost predicate Grows(es: seq<Event>, corpus: seq<string>) {
    es != [] ==>
      var n := |es| - 1;
      && Grows(es[..n], corpus)
      && (es[n].Run? ==> forall b :: b in LastCorpus(corpus, es[..n]) ==> b in es[n].corpus)
  }

  /** From a growing corpus nobody departs. */
  lemma {:induction false} GrowingCorpusLosesNone(st: Store, key: KeyFunction, es: seq<Event>, corpus: seq<string>, a: string)
    requires Grows(es, corpus)
    ensures TotalDepartures(st, key, es, corpus, a) == 0
  {
    if es != [] {
      var n := |es| - 1;
      GrowingCorpusLosesNone(st, key, es[..n], corpus, a);
      if es[n].Run? {
        LargerCorpusLosesNone(ExecAll(st, key, es[..n]), es[n], LastCorpus(corpus, es[..n]), a);
      }
    }
  }

  lemma LargerCorpusLosesNone(st: Store, e: Event, corpus: seq<string>, a: string)
    requires e.Run? && forall b :: b in corpus ==> b in e.corpus
    ensures |Departed(st, e, corpus, a)| == 0
  {
    assert Departed(st, e, corpus, a) == {};
  }

  // ---- the waiting law ------------------------------------------------------------------------

  /** No run of the history slices a. */
  ghost predicate Waits(st: Store, key: KeyFunction, es: seq<Event>, a: string) {
    es != [] ==> Waits(st, key, es[..|es| - 1], a) && !Sliced(ExecAll(st, key, es[..|es| - 1]), es[|es| - 1], a)
  }

  /** How long the queue of a looks to a run that comes after these events. */
  function InFront(st: Store, key: KeyFunction, es: seq<Event>, e: Event, corpus: seq<string>, a: string): int
    requires e.Run?
  {
    var s, c := ExecAll(st, key, es), LastCorpus(corpus, es);
    Remaining(st, key, es, corpus, a) + |Joined(s, e, c, a)| - |Departed(s, e, c, a)| + Misjudged(s, e, a)
  }

  /** Every run whose corpus has a finds at least its cap before a. */
  ghost predicate Crowded(st: Store, key: KeyFunction, es: seq<Event>, corpus: seq<string>, a: string) {
    es != [] ==>
      var n := |es| - 1;
      && Crowded(st, key, es[..n], corpus, a)
      && (es[n].Run? && a in es[n].corpus ==> InFront(st, key, es[..n], es[n], corpus, a) >= es[n].cap)
  }

  lemma InFrontIs(st: Store, key: KeyFunction, es: seq<Event>, e: Event, corpus: seq<string>, a: string)
    requires WalletsValid(st.wallets) && AllowedAll(st, key, es) && e.Run?
    ensures var s := ExecAll(st, key, es);
            InFront(st, key, es, e, corpus, a) == |Queue(s, e.corpus, a)| + Misjudged(s, e, a)
  {
    QueueLedger(st, key, es, corpus, a);
    JoinedAndDeparted(ExecAll(st, key, es), e, LastCorpus(corpus, es), a);
  }

  lemma SlicedByFront(st: Store, key: KeyFunction, es: seq<Event>, e: Event, corpus: seq<string>, a: string)
    requires var s := ExecAll(st, key, es);
             e.Run? && InFront(st, key, es, e, corpus, a) == |Queue(s, e.corpus, a)| + Misjudged(s, e, a)
    ensures Sliced(ExecAll(st, key, es), e, a) <==> a in e.corpus && InFront(st, key, es, e, corpus, a) < e.cap
  {
    SlicedWhenShort(ExecAll(st, key, es), e, a, InFront(st, key, es, e, corpus, a));
  }

  lemma RunSlices(st: Store, key: KeyFunction, es: seq<Event>, e: Event, corpus: seq<string>, a: string)
    requires WalletsValid(st.wallets) && AllowedAll(st, key, es) && e.Run?
    ensures Sliced(ExecAll(st, key, es), e, a) <==> a in e.corpus && InFront(st, key, es, e, corpus, a) < e.cap
  {
    InFrontIs(st, key, es, e, corpus, a);
    SlicedByFront(st, key, es, e, corpus, a);
  }

  /** The waiting law, for every history: with any corpora, caps, clocks, failures and lost
      queries. An address is passed over by every run exactly when at each run that considers it
      the queue at the start, plus what entered and joined it and the idle slots, less what
      departed and all slots so far, reaches that run's cap. */
  lemma {:induction false} WaitsExactlyWhile(st: Store, key: KeyFunction, es: seq<Event>, corpus: seq<string>, a: string)
    requires WalletsValid(st.wallets) && AllowedAll(st, key, es)
    ensures Waits(st, key, es, a) <==> Crowded(st, key, es, corpus, a)
  {
    if es != [] {
      var n := |es| - 1;
      WaitsExactlyWhile(st, key, es[..n], corpus, a);
      if es[n].Run? {
        RunSlices(st, key, es[..n], es[n], corpus, a);
      }
    }
  }

  /** A backlog wallet that is passed over stays in the backlog. */
  lemma UnslicedStays(st: Store, key: KeyFunction, e: Event, a: string)
    requires WalletsValid(st.wallets) && Allowed(st, e) && StateOf(st, a) != AlreadyScored && !Sliced(st, e, a)
    ensures StateOf(Exec(st, key, e), a) != AlreadyScored
  {
    EventMovesBacklog(st, key, e, [a]);
    assert a in Backlog(st, [a]);
    assert a in Backlog(Exec(st, key, e), [a]);
  }

  lemma {:induction false} WaitingStays(st: Store, key: KeyFunction, es: seq<Event>, a: string)
    requires WalletsValid(st.wallets) && AllowedAll(st, key, es)
    requires StateOf(st, a) != AlreadyScored && Waits(st, key, es, a)
    ensures StateOf(ExecAll(st, key, es), a) != AlreadyScored
  {
    if es != [] {
      var n := |es| - 1;
      WaitingStays(st, key, es[..n], a);
      HistoryKeepsWallets(st, key, es[..n]);
      UnslicedStays(ExecAll(st, key, es[..n]), key, es[n], a);
    }
  }

  // ---- idle slots -----------------------------------------------------------------------------

  lemma EarlyIsTaken(s: seq<string>, n: nat, k: nat)
    requires k < n && k < |s|
    ensures s[k] in Take(n, s)
  {
    assert Take(n, s)[k] == s[k];
  }

  /** The slice of a run that passes over a backlog wallet consists of cap wallets of its queue. */
  lemma SliceIsFromQueue(st: Store, corpus: seq<string>, cap: nat, a: string)
    requires a in Backlog(st, corpus) && a !in SliceUnder(st, corpus, cap, NOTHING_LOST)
    ensures var slice := SliceUnder(st, corpus, cap, NOTHING_LOST);
            |Elements(slice)| == cap && Elements(slice) <= Queue(st, corpus, a)
  {
    var needs := Backlog(st, corpus);
    var slice, r := SliceFrom(corpus, needs, cap), Ranking(corpus, needs);
    NothingLostSeesBacklog(st, corpus);
    SliceShape(corpus, needs, cap);
    RankingIsThePreferenceOrder(corpus, needs);
    var k: nat :| k < |r| && r[k] == a;
    if k < cap {
      EarlyIsTaken(r, cap, k);
    }
    AscendingNoDuplicates(slice);
    SizeOfElements(slice);
    forall x | x in slice ensures x in Queue(st, corpus, a) {
      var i :| 0 <= i < |Take(cap, r)| && Take(cap, r)[i] == x;
      assert Preferred(needs, r[i], r[k]);
    }
  }

  /** Its idle slots are held by the wallets of the queue that the run slices and yet leaves in
      the backlog. */
  function Idlers(st: Store, key: KeyFunction, e: Event, a: string): set<string>
    requires e.Run?
  {
    Elements(SliceBy(st, e)) - ClearedAhead(st, key, e, a)
  }

  lemma IdleSlotsAre(st: Store, key: KeyFunction, e: Event, a: string)
    requires e.Run? && e.lost == NOTHING_LOST && a in Backlog(st, e.corpus) && !Sliced(st, e, a)
    ensures IdleSlots(st, key, e, a) == |Idlers(st, key, e, a)|
    ensures Idlers(st, key, e, a) <= Queue(st, e.corpus, a)
  {
    SliceIsFromQueue(st, e.corpus, e.cap, a);
    ClearedAreSliced(st, key, e, a);
  }

  lemma ClearedAreSliced(st: Store, key: KeyFunction, e: Event, a: string)
    requires e.Run?
    ensures ClearedAhead(st, key, e, a) <= Elements(SliceBy(st, e))
    ensures |Idlers(st, key, e, a)| == |Elements(SliceBy(st, e))| - |ClearedAhead(st, key, e, a)|
  {
  }

  /** They are blocked, or their insert raises, or their row is written behind a newer trade. */
  lemma IdlersAre(st: Store, key: KeyFunction, e: Event, a: string, b: string)
    requires e.Run? && b in Idlers(st, key, e, a) && b in Queue(st, e.corpus, a)
    ensures Blocked(st, key, b) || b in e.failing || (b in st.wallets && Ahead(st, b, e.now))
  {
  }

  /** Every address of the corpus is canonical and has a wallets row and a trade, and the run has
      its clock past the trades, fails no insert and loses no query. */
  ghost predicate SmoothRun(st: Store, e: Event)
    requires e.Run?
  {
    && Ready(st, e.corpus) && (forall b :: b in e.corpus ==> IsCanonical(b))
    && NotBefore(e.now, st.trades) && e.failing == {} && e.lost == NOTHING_LOST
  }

  ghost predicate Smooth(st: Store, key: KeyFunction, es: seq<Event>) {
    es != [] ==>
      var n := |es| - 1;
      Smooth(st, key, es[..n]) && (es[n].Run? ==> SmoothRun(ExecAll(st, key, es[..n]), es[n]))
  }

  ghost predicate NoneStuck(st: Store, key: KeyFunction) {
    forall b :: IsCanonical(b) ==> !Stuck(st, key, b)
  }

  lemma NotStuckNotBlocked(st: Store, key: KeyFunction, b: string)
    requires !Stuck(st, key, b) && b in st.wallets && OwnTrades(st.trades, b) != []
    ensures !Blocked(st, key, b)
  {
    if Keyed(st, key, b) {
      assert HasPrior(st.decisions, st.wallets[b]);
    }
  }

  lemma {:induction false} SmoothHistorySticksNone(st: Store, key: KeyFunction, es: seq<Event>)
    requires Revealing(key) && Valid(st) && Honest(st, key) && AllowedAll(st, key, es)
    requires NoneStuck(st, key) && Smooth(st, key, es)
    ensures NoneStuck(ExecAll(st, key, es), key)
  {
    if es != [] {
      var n := |es| - 1;
      var s := ExecAll(st, key, es[..n]);
      SmoothHistorySticksNone(st, key, es[..n]);
      HistoryKeepsInvariants(st, key, es[..n]);
      forall b | IsCanonical(b) ensures !Stuck(Exec(s, key, es[n]), key, b) {
        StuckStep(s, key, es[n], b);
        if es[n].Run? {
          NoneAhead(s, b, es[n].now);
        }
      }
    }
  }

  lemma SmoothRunIdlesNone(st: Store, key: KeyFunction, e: Event, a: string)
    requires e.Run? && SmoothRun(st, e) && NoneStuck(st, key)
    requires a in Backlog(st, e.corpus) && !Sliced(st, e, a)
    ensures IdleSlots(st, key, e, a) == 0
  {
    IdleSlotsAre(st, key, e, a);
    forall b | b in e.corpus ensures b !in Idlers(st, key, e, a) {
      NotStuckNotBlocked(st, key, b);
      NoneAhead(st, b, e.now);
      if b in Idlers(st, key, e, a) {
        IdlersAre(st, key, e, a, b);
      }
    }
    assert Idlers(st, key, e, a) == {};
  }

  /** Every run considers a. */
  ghost predicate Considered(es: seq<Event>, a: string) {
    forall i :: 0 <= i < |es| && es[i].Run? ==> a in es[i].corpus
  }

  /** While a backlog wallet waits through a smooth history that starts without stuck wallets, no
      slot is idle: the queue and the arrivals alone decide. */
  lemma {:induction false} SmoothHistoryIdlesNone(st: Store, key: KeyFunction, es: seq<Event>, a: string)
    requires Revealing(key) && Valid(st) && Honest(st, key) && AllowedAll(st, key, es)
    requires NoneStuck(st, key) && Smooth(st, key, es) && Considered(es, a)
    requires StateOf(st, a) != AlreadyScored && Waits(st, key, es, a)
    ensures TotalIdle(st, key, es, a) == 0
  {
    if es != [] {
      var n := |es| - 1;
      var s := ExecAll(st, key, es[..n]);
      SmoothHistoryIdlesNone(st, key, es[..n], a);
      SmoothHistorySticksNone(st, key, es[..n]);
      WaitingStays(st, key, es[..n], a);
      if es[n].Run? {
        SmoothRunIdlesNone(s, key, es[n], a);
      }
    }
  }

  // ---- a bounded wait -------------------------------------------------------------------------

  function RunCount(es: seq<Event>): nat {
    if es == [] then 0
    else
      var n := |es| - 1;
      RunCount(es[..n]) + if es[n].Run? then 1 else 0
  }

  /** Every run has this cap, and loses no query. */
  ghost predicate EqualRuns(es: seq<Event>, cap: nat) {
    forall i :: 0 <= i < |es| && es[i].Run? ==> es[i].cap == cap && es[i].lost == NOTHING_LOST
  }

  lemma {:induction false} SlotsOfEqualRuns(es: seq<Event>, cap: nat)
    requires EqualRuns(es, cap)
    ensures TotalSlots(es) == RunCount(es) * cap
  {
    if es != [] {
      var n := |es| - 1;
      SlotsOfEqualRuns(es[..n], cap);
      assert (RunCount(es[..n]) + 1) * cap == RunCount(es[..n]) * cap + cap;
    }
  }

  /** What comes between a waiting wallet and its slice: wallets that enter or join its queue, up
      to the last run, and idle slots. */
  function Delays(st: Store, key: KeyFunction, es: seq<Event>, last: Event, corpus: seq<string>, a: string): nat
    requires last.Run?
  {
    TotalArrivals(st, key, es, corpus, a) + TotalIdle(st, key, es, a)
    + |Joined(ExecAll(st, key, es), last, LastCorpus(corpus, es), a)|
  }

  lemma InFrontAtMost(st: Store, key: KeyFunction, es: seq<Event>, last: Event, corpus: seq<string>, a: string, cap: nat)
    requires last.Run? && EqualRuns(es, cap) && Misjudged(ExecAll(st, key, es), last, a) == 0
    ensures InFront(st, key, es, last, corpus, a)
            <= |Queue(st, corpus, a)| + Delays(st, key, es, last, corpus, a) - RunCount(es) * cap
  {
    SlotsOfEqualRuns(es, cap);
  }

  /** When per run at most d wallets enter or join the queue or leave their slot idle, a backlog
      wallet with q before it is sliced by the k-th run at the latest, for every k with
      q < k * (cap - d). */
  lemma ServedWithin(st: Store, key: KeyFunction, es: seq<Event>, last: Event, corpus: seq<string>, a: string, cap: nat, d: nat)
    requires WalletsValid(st.wallets) && AllowedAll(st, key, es) && EqualRuns(es, cap)
    requires last.Run? && last.cap == cap && last.lost == NOTHING_LOST
    requires a in last.corpus && StateOf(st, a) != AlreadyScored
    requires Delays(st, key, es, last, corpus, a) <= (RunCount(es) + 1) * d
    requires |Queue(st, corpus, a)| < (RunCount(es) + 1) * (cap - d)
    ensures !Waits(st, key, es, a) || Sliced(ExecAll(st, key, es), last, a)
  {
    if Waits(st, key, es, a) {
      WaitingStays(st, key, es, a);
      NothingMisjudged(ExecAll(st, key, es), last, a);
      ShortInFront(st, key, es, last, corpus, a, cap, d);
      RunSlices(st, key, es, last, corpus, a);
    }
  }

  lemma ShortInFront(st: Store, key: KeyFunction, es: seq<Event>, last: Event, corpus: seq<string>, a: string, cap: nat, d: nat)
    requires last.Run? && EqualRuns(es, cap) && Misjudged(ExecAll(st, key, es), last, a) == 0
    requires Delays(st, key, es, last, corpus, a) <= (RunCount(es) + 1) * d
    requires |Queue(st, corpus, a)| < (RunCount(es) + 1) * (cap - d)
    ensures InFront(st, key, es, last, corpus, a) < cap
  {
    InFrontAtMost(st, key, es, last, corpus, a, cap);
    SlotsCount(RunCount(es) + 1, cap, d);
  }

  lemma SlotsCount(k: nat, cap: nat, d: nat)
    requires k > 0
    ensures k * (cap - d) + k * d - (k - 1) * cap == cap
  {
    assert k * (cap - d) == k * cap - k * d;
    assert (k - 1) * cap == k * cap - cap;
  }

  // ---- starvation -----------------------------------------------------------------------------

  /** No run hides the backlog. */
  ghost predicate NoneHides(es: seq<Event>) {
    forall i :: 0 <= i < |es| && es[i].Run? ==> es[i].lost.trades ==> es[i].lost.keys
  }

  lemma LongQueueIsPassedOver(st: Store, e: Event, a: string, ahead: set<string>)
    requires e.Run? && (e.lost.trades ==> e.lost.keys) && StateOf(st, a) != AlreadyScored
    requires ahead <= Queue(st, e.corpus, a) && |ahead| >= e.cap
    ensures !Sliced(st, e, a)
  {
    if a in e.corpus {
      SmallerSubset(ahead, Queue(st, e.corpus, a));
      NoneHidden(st, e, a);
      SlicedExactlyWhen(st, e, a);
    } else {
      SlicedExactlyWhen(st, e, a);
    }
  }

  /** At every run at least its cap of wallets join the queue of a. */
  ghost predicate ManyJoin(st: Store, key: KeyFunction, es: seq<Event>, corpus: seq<string>, a: string) {
    es != [] ==>
      var n := |es| - 1;
      && ManyJoin(st, key, es[..n], corpus, a)
      && (es[n].Run? ==> |Joined(ExecAll(st, key, es[..n]), es[n], LastCorpus(corpus, es[..n]), a)| >= es[n].cap)
  }

  /** Newcomers starve: as many of them as the cap, sorting before a in every scan, keep a from
      every slice and in the backlog. */
  lemma {:induction false} NewcomersStarve(st: Store, key: KeyFunction, es: seq<Event>, corpus: seq<string>, a: string)
    requires WalletsValid(st.wallets) && AllowedAll(st, key, es) && NoneHides(es)
    requires StateOf(st, a) != AlreadyScored && ManyJoin(st, key, es, corpus, a)
    ensures Waits(st, key, es, a) && StateOf(ExecAll(st, key, es), a) != AlreadyScored
  {
    if es != [] {
      var n := |es| - 1;
      var s := ExecAll(st, key, es[..n]);
      NewcomersStarve(st, key, es[..n], corpus, a);
      HistoryKeepsWallets(st, key, es[..n]);
      if es[n].Run? {
        LongQueueIsPassedOver(s, es[n], a, Joined(s, es[n], LastCorpus(corpus, es[..n]), a));
      }
      UnslicedStays(s, key, es[n], a);
    }
  }

  ghost predicate AllBlocked(st: Store, key: KeyFunction, blocked: set<string>) {
    forall b :: b in blocked ==> Blocked(st, key, b)
  }

  /** The event brings the wallet an own trade or a row of its own. */
  predicate Unblocks(e: Event, b: string) {
    Frees(e, b) || (e.WalletAdded? && e.address == b)
  }

  ghost predicate NoneUnblocked(es: seq<Event>, blocked: set<string>) {
    forall i, b :: 0 <= i < |es| && b in blocked ==> !Unblocks(es[i], b)
  }

  /** A blocked wallet stays blocked until then, whatever the runs do. */
  lemma BlockedStays(st: Store, key: KeyFunction, e: Event, b: string)
    requires WalletsValid(st.wallets) && Allowed(st, e) && Blocked(st, key, b) && !Unblocks(e, b)
    ensures Blocked(Exec(st, key, e), key, b)
  {
    match e
    case TradesArrive(rows) =>
      ArrivalDecidesState(st, rows, b);
      OwnTradesGrow(st.trades, rows, b);
      assert OwnTrades(st.trades, b) + [] == OwnTrades(st.trades, b);
    case WalletAdded(c, id) => NewWalletKeepsState(st, c, id, b);
    case Run(_, _, _, _, _) =>
      SliceUnderFits(st, e.corpus, e.cap, e.lost);
      BlockedAfterRun(st, key, SliceBy(st, e), e.cap, e.now, e.failing, b);
  }

  lemma {:induction false} BlockedStayBlocked(st: Store, key: KeyFunction, es: seq<Event>, blocked: set<string>)
    requires WalletsValid(st.wallets) && AllowedAll(st, key, es) && AllBlocked(st, key, blocked)
    requires NoneUnblocked(es, blocked)
    ensures AllBlocked(ExecAll(st, key, es), key, blocked)
  {
    if es != [] {
      var n := |es| - 1;
      assert NoneUnblocked(es[..n], blocked);
      BlockedStayBlocked(st, key, es[..n], blocked);
      HistoryKeepsWallets(st, key, es[..n]);
      forall b | b in blocked ensures Blocked(ExecAll(st, key, es), key, b) {
        BlockedStays(ExecAll(st, key, es[..n]), key, es[n], b);
      }
    }
  }

  /** Every run considers these addresses, with a cap that does not exceed their number. */
  ghost predicate Outnumbered(es: seq<Event>, ahead: set<string>) {
    forall i :: 0 <= i < |es| && es[i].Run? ==> es[i].cap <= |ahead| && forall b :: b in ahead ==> b in es[i].corpus
  }

  /** Blocked wallets starve: those without a row or trades and those that are stuck, as many as
      the cap and sorting before a, keep a from every slice while none of them gets a row or a
      trade, whatever else the corpora hold and whatever the clocks are. */
  lemma {:induction false} BlockedWalletsStarve(st: Store, key: KeyFunction, es: seq<Event>, blocked: set<string>, a: string)
    requires WalletsValid(st.wallets) && AllowedAll(st, key, es) && NoneHides(es)
    requires AllBlocked(st, key, blocked) && NoneUnblocked(es, blocked) && Outnumbered(es, blocked)
    requires StateOf(st, a) != AlreadyScored && forall b :: b in blocked ==> Less(b, a)
    ensures Waits(st, key, es, a) && StateOf(ExecAll(st, key, es), a) != AlreadyScored
  {
    if es != [] {
      var n := |es| - 1;
      var s := ExecAll(st, key, es[..n]);
      assert NoneUnblocked(es[..n], blocked) && Outnumbered(es[..n], blocked) && NoneHides(es[..n]);
      BlockedWalletsStarve(st, key, es[..n], blocked, a);
      BlockedStayBlocked(st, key, es[..n], blocked);
      HistoryKeepsWallets(st, key, es[..n]);
      if es[n].Run? {
        LongQueueIsPassedOver(s, es[n], a, blocked);
      }
      UnslicedStays(s, key, es[n], a);
    }
  }

  /** Every run loses its keys. */
  ghost predicate BlindRuns(es: seq<Event>) {
    forall i :: 0 <= i < |es| && es[i].Run? ==> es[i].lost.keys
  }

  /** A blind run slices an address exactly when fewer than cap addresses of its corpus sort
      before it, whatever has been scored. */
  lemma BlindRunSlicesExactlyWhen(st: Store, e: Event, a: string)
    requires e.Run? && e.lost.keys
    ensures Sliced(st, e, a) <==> a in e.corpus && |Elements(Before(e.corpus, a))| < e.cap
  {
    SliceUnderFits(st, e.corpus, e.cap, e.lost);
    if a in e.corpus {
      var needs := Needs(st, e.lost, e.corpus);
      SliceMembership(e.corpus, needs, e.cap, a);
      assert (set b | b in e.corpus && Preferred(needs, b, a)) == Elements(Before(e.corpus, a));
    }
  }

  /** While the keys are lost, the same first addresses are sliced in every run. Once as many as
      the cap sort before a, a is never sliced, and if it was fresh it stays so. */
  lemma {:induction false} BlindRunsStopCoverage(st: Store, key: KeyFunction, es: seq<Event>, ahead: set<string>, a: string)
    requires WalletsValid(st.wallets) && AllowedAll(st, key, es) && BlindRuns(es) && Outnumbered(es, ahead)
    requires forall b :: b in ahead ==> Less(b, a)
    ensures Waits(st, key, es, a)
    ensures StateOf(st, a) == Fresh ==> StateOf(ExecAll(st, key, es), a) == Fresh
  {
    if es != [] {
      var n := |es| - 1;
      var s, e := ExecAll(st, key, es[..n]), es[n];
      assert Outnumbered(es[..n], ahead) && BlindRuns(es[..n]);
      BlindRunsStopCoverage(st, key, es[..n], ahead, a);
      HistoryKeepsWallets(st, key, es[..n]);
      if e.Run? {
        SmallerSubset(ahead, Elements(Before(e.corpus, a)));
        BlindRunSlicesExactlyWhen(s, e, a);
      }
      UnslicedKeepsFresh(s, key, e, a);
    }
  }

  lemma UnslicedKeepsFresh(st: Store, key: KeyFunction, e: Event, a: string)
    requires WalletsValid(st.wallets) && Allowed(st, e) && !Sliced(st, e, a)
    ensures StateOf(st, a) == Fresh ==> StateOf(Exec(st, key, e), a) == Fresh
  {
    match e
    case TradesArrive(rows) => ArrivalDecidesState(st, rows, a);
    case WalletAdded(b, id) => NewWalletKeepsState(st, b, id, a);
    case Run(_, _, _, _, _) =>
      SliceUnderFits(st, e.corpus, e.cap, e.lost);
      RunDecidesState(st, key, SliceBy(st, e), e.cap, e.now, e.failing, a);
  }
}
