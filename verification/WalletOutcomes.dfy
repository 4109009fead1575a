/** What Step 5b does with every address, by the tables alone. */
module WalletOutcomes {
  import opened Basics
  import opened ScanStore
  import opened WalletSlice
  import opened WalletScores

  // ---- which addresses get a row --------------------------------------------------------------

  /** The address has metrics and a wallets row. */
  predicate Considered(st: Store, job: Job, a: string) {
    a in job.keys && a in st.wallets
  }

  /** The table has a V1 row of the wallet under its current key. */
  ghost predicate HasRow(st: Store, job: Job, a: string)
    requires Considered(st, job, a)
  {
    exists r :: r in st.decisions && r.wallet == st.wallets[a] && r.version == "1" && r.key == job.keys[a]
  }

  ghost predicate Open(st: Store, job: Job, a: string) {
    Considered(st, job, a) && !HasRow(st, job, a) && a !in job.failing
  }

  /** How many addresses of the list that sort before a could get a row. */
  ghost function OpenBefore(st: Store, job: Job, addresses: seq<string>, a: string): nat {
    |set b | b in addresses && Open(st, job, b) && Less(b, a)|
  }

  /** The address gets a row: it could, and the budget lasts until its turn. */
  ghost predicate GetsRow(st: Store, job: Job, addresses: seq<string>, a: string) {
    && a in addresses && Open(st, job, a)
    && (job.budget.Some? ==> OpenBefore(st, job, addresses, a) < job.budget.value)
  }

  /** When the turn of a comes the budget is used up. */
  ghost predicate Late(st: Store, job: Job, addresses: seq<string>, a: string) {
    job.budget.Some? && OpenBefore(st, job, addresses, a) >= job.budget.value
  }

  lemma HasRowIsTabled(st: Store, job: Job, a: string)
    requires Considered(st, job, a)
    ensures HasRow(st, job, a) <==> UpToDate(st, job, a)
  {
    if HasRow(st, job, a) {
      var r :| r in st.decisions && r.wallet == st.wallets[a] && r.version == "1" && r.key == job.keys[a];
      var i :| 0 <= i < |st.decisions| && st.decisions[i] == r;
      assert IsV1(st.decisions[i], st.wallets[a]);
    }
    if UpToDate(st, job, a) {
      var i :| 0 <= i < |st.decisions| && IsV1(st.decisions[i], st.wallets[a]) && st.decisions[i].key == job.keys[a];
      assert st.decisions[i] in st.decisions;
    }
  }

  lemma PendingAreOpen(st: Store, job: Job, addresses: seq<string>)
    ensures forall a :: a in Pending(st, job, addresses) <==> a in addresses && Open(st, job, a)
  {
    forall a ensures a in Pending(st, job, addresses) <==> a in addresses && Open(st, job, a) {
      if Considered(st, job, a) {
        HasRowIsTabled(st, job, a);
      }
    }
  }

  lemma SmallerAreEarlier(w: seq<string>, k: nat, b: string)
    requires Ascending(w) && k < |w|
    ensures b in w && Less(b, w[k]) <==> b in w[..k]
  {
    if b in w && Less(b, w[k]) {
      var i :| 0 <= i < |w| && w[i] == b;
      LessIrreflexive(w[k]);
      if i > k {
        LessTransitive(w[k], w[i], w[k]);
      }
      assert w[..k][i] == b;
    }
    if b in w[..k] {
      var i :| 0 <= i < k && w[..k][i] == b;
      assert w[i] == b;
    }
  }

  lemma OpenBeforeIsIndex(st: Store, job: Job, addresses: seq<string>, w: seq<string>, k: nat)
    requires Ascending(w) && k < |w| && forall b :: b in w <==> b in addresses && Open(st, job, b)
    ensures OpenBefore(st, job, addresses, w[k]) == k
  {
    var ahead := set b | b in addresses && Open(st, job, b) && Less(b, w[k]);
    forall b ensures b in ahead <==> b in w[..k] {
      SmallerAreEarlier(w, k, b);
    }
    assert ahead == Elements(w[..k]);
    AscendingNoDuplicates(w);
    SizeOfElements(w[..k]);
  }

  lemma ChosenExactlyWhen(st: Store, job: Job, addresses: seq<string>, a: string)
    ensures a in Chosen(st, job, addresses) <==> GetsRow(st, job, addresses, a)
  {
    var w := Within(SortDistinct(addresses), Pending(st, job, addresses));
    PendingAreOpen(st, job, addresses);
    WithinAscending(SortDistinct(addresses), Pending(st, job, addresses));
    if a in w {
      var k :| 0 <= k < |w| && w[k] == a;
      OpenBeforeIsIndex(st, job, addresses, w, k);
      AscendingNoDuplicates(w);
      var chosen := Chosen(st, job, addresses);
      assert forall i :: 0 <= i < |chosen| ==> chosen[i] == w[i];
      assert k < |chosen| ==> chosen[k] == a;
    }
  }

  /** cs are the addresses that get a row, in address order, and these are their rows. */
  ghost predicate RowsOf(st: Store, job: Job, addresses: seq<string>, cs: seq<string>, rows: seq<Decision>) {
    && Ascending(cs) && |rows| == |cs| && (forall a :: a in cs <==> GetsRow(st, job, addresses, a))
    && forall i :: 0 <= i < |cs| ==>
         Considered(st, job, cs[i]) && rows[i] == Decision(st.wallets[cs[i]], "1", job.keys[cs[i]], job.now)
  }

  /** Step 5b appends one row for each address of the list that has metrics, a wallets row, no V1
      row under its key and no failing insert, in address order as far as the budget goes; each
      row holds the wallet, version 1, the key and the clock. */
  lemma PersistAppendsExactly(st: Store, job: Job, addresses: seq<string>)
    ensures var after := AfterPersist(st, job, addresses);
            && after.wallets == st.wallets && after.trades == st.trades && st.decisions <= after.decisions
            && exists cs :: RowsOf(st, job, addresses, cs, after.decisions[|st.decisions|..])
  {
    var cs, after := Chosen(st, job, addresses), AfterPersist(st, job, addresses);
    ChosenReached(st, job, addresses);
    forall a ensures a in cs <==> GetsRow(st, job, addresses, a) {
      ChosenExactlyWhen(st, job, addresses, a);
    }
    assert after.decisions[|st.decisions|..] == RowsFor(st, job, cs);
    forall i | 0 <= i < |cs|
      ensures Considered(st, job, cs[i])
              && RowsFor(st, job, cs)[i] == Decision(st.wallets[cs[i]], "1", job.keys[cs[i]], job.now)
    {
      assert cs[i] in cs;
    }
    assert RowsOf(st, job, addresses, cs, after.decisions[|st.decisions|..]);
  }

  // ---- the counters -------------------------------------------------------------------------------

  /** Addresses whose row is offered to the table or found there: with a failed pre-load all. */
  ghost predicate Offered(st: Store, job: Job, a: string, preloadFails: bool) {
    Considered(st, job, a) && (HasRow(st, job, a) ==> preloadFails)
  }

  /** The budget is used up before a's turn. */
  ghost function DeferredSet(st: Store, job: Job, addresses: seq<string>, preloadFails: bool): set<string> {
    set a | a in addresses && Offered(st, job, a, preloadFails) && Late(st, job, addresses, a)
  }

  /** a has a row; without the pre-load that shows only when its insert is tried. */
  ghost function ReusedSet(st: Store, job: Job, addresses: seq<string>, preloadFails: bool): set<string> {
    set a | a in addresses && Considered(st, job, a) && HasRow(st, job, a)
            && (preloadFails ==> !Late(st, job, addresses, a) && a !in job.failing)
  }

  /** The pending addresses among the first i are those that could get a row and sort before the
      next one. */
  lemma PendingUpTo(st: Store, job: Job, addresses: seq<string>, i: nat)
    requires i < |SortDistinct(addresses)|
    ensures var sorted := SortDistinct(addresses);
            |Within(sorted[..i], Pending(st, job, sorted))| == OpenBefore(st, job, addresses, sorted[i])
  {
    var sorted := SortDistinct(addresses);
    var w := Within(sorted[..i], Pending(st, job, sorted));
    PendingAreOpen(st, job, sorted);
    WithinAscending(sorted[..i], Pending(st, job, sorted));
    AscendingNoDuplicates(w);
    SizeOfElements(w);
    var ahead := set b | b in addresses && Open(st, job, b) && Less(b, sorted[i]);
    forall b ensures b in ahead <==> b in w {
      SmallerAreEarlier(sorted, i, b);
    }
    assert ahead == Elements(w);
  }

  /** The budget is spent at position i exactly when it is used up before that address. */
  lemma SpentIsLate(st: Store, job: Job, addresses: seq<string>, i: nat)
    requires i < |SortDistinct(addresses)|
    ensures var sorted := SortDistinct(addresses);
            SpentAt(st, job, sorted, i) <==> Late(st, job, addresses, sorted[i])
  {
    PendingUpTo(st, job, addresses, i);
  }

  /** One more address is one more deferred, or one more reused, exactly when it is in that set. */
  lemma DeferredStep(st: Store, job: Job, addresses: seq<string>, n: nat, preloadFails: bool)
    requires n < |SortDistinct(addresses)|
    ensures var sorted := SortDistinct(addresses);
            CountOf(st, job, sorted, n + 1, preloadFails, Defer)
            == CountOf(st, job, sorted, n, preloadFails, Defer)
               + (if sorted[n] in DeferredSet(st, job, addresses, preloadFails) then 1 else 0)
  {
    OutcomeMeans(st, job, addresses, n, preloadFails);
  }

  lemma ReusedStep(st: Store, job: Job, addresses: seq<string>, n: nat, preloadFails: bool)
    requires n < |SortDistinct(addresses)|
    ensures var sorted := SortDistinct(addresses);
            CountOf(st, job, sorted, n + 1, preloadFails, Reuse) + CountOf(st, job, sorted, n + 1, preloadFails, Collide)
            == CountOf(st, job, sorted, n, preloadFails, Reuse) + CountOf(st, job, sorted, n, preloadFails, Collide)
               + (if sorted[n] in ReusedSet(st, job, addresses, preloadFails) then 1 else 0)
  {
    OutcomeMeans(st, job, addresses, n, preloadFails);
  }

  lemma WithinStep(sorted: seq<string>, n: nat, keep: set<string>)
    requires n < |sorted|
    ensures |Within(sorted[..n + 1], keep)| == |Within(sorted[..n], keep)| + (if sorted[n] in keep then 1 else 0)
  {
    WithinSnoc(sorted, n, keep);
  }

  lemma {:induction false} DeferredAreCounted(st: Store, job: Job, addresses: seq<string>, n: nat, preloadFails: bool)
    requires n <= |SortDistinct(addresses)|
    ensures var sorted := SortDistinct(addresses);
            CountOf(st, job, sorted, n, preloadFails, Defer)
            == |Within(sorted[..n], DeferredSet(st, job, addresses, preloadFails))|
  {
    if n > 0 {
      DeferredAreCounted(st, job, addresses, n - 1, preloadFails);
      WithinStep(SortDistinct(addresses), n - 1, DeferredSet(st, job, addresses, preloadFails));
      DeferredStep(st, job, addresses, n - 1, preloadFails);
    }
  }

  lemma {:induction false} ReusedAreCounted(st: Store, job: Job, addresses: seq<string>, n: nat, preloadFails: bool)
    requires n <= |SortDistinct(addresses)|
    ensures var sorted := SortDistinct(addresses);
            CountOf(st, job, sorted, n, preloadFails, Reuse) + CountOf(st, job, sorted, n, preloadFails, Collide)
            == |Within(sorted[..n], ReusedSet(st, job, addresses, preloadFails))|
  {
    if n > 0 {
      ReusedAreCounted(st, job, addresses, n - 1, preloadFails);
      WithinStep(SortDistinct(addresses), n - 1, ReusedSet(st, job, addresses, preloadFails));
      ReusedStep(st, job, addresses, n - 1, preloadFails);
    }
  }

  lemma OutcomeMeans(st: Store, job: Job, addresses: seq<string>, i: nat, preloadFails: bool)
    requires i < |SortDistinct(addresses)|
    ensures var sorted := SortDistinct(addresses);
            var a := sorted[i];
            && (a in DeferredSet(st, job, addresses, preloadFails)
                <==> Reached(st, job, a) && Expected(st, job, a, SpentAt(st, job, sorted, i), preloadFails) == Defer)
            && (a in ReusedSet(st, job, addresses, preloadFails)
                <==> Reached(st, job, a)
                     && (Expected(st, job, a, SpentAt(st, job, sorted, i), preloadFails) == Reuse
                         || Expected(st, job, a, SpentAt(st, job, sorted, i), preloadFails) == Collide))
  {
    var a := SortDistinct(addresses)[i];
    SpentIsLate(st, job, addresses, i);
    assert a in SortDistinct(addresses);
    if Considered(st, job, a) {
      HasRowIsTabled(st, job, a);
    }
  }

  /** The counters of a call: deferred are the addresses without a visible row whose turn came
      after the budget was used up, and reused are those whose row was found, in the pre-loaded
      keys or, without them, when the insert was tried. */
  lemma CountersCount(st: Store, job: Job, addresses: seq<string>, preloadFails: bool, s: Pass)
    requires Accounted(st, job, addresses, preloadFails, s)
    ensures s.deferred == |DeferredSet(st, job, addresses, preloadFails)|
    ensures s.reused == |ReusedSet(st, job, addresses, preloadFails)|
  {
    var sorted := SortDistinct(addresses);
    DeferredAreCounted(st, job, addresses, |sorted|, preloadFails);
    ReusedAreCounted(st, job, addresses, |sorted|, preloadFails);
    assert sorted[..|sorted|] == sorted;
    WithinSize(sorted, DeferredSet(st, job, addresses, preloadFails));
    WithinSize(sorted, ReusedSet(st, job, addresses, preloadFails));
  }
}
