/** What the budget of Step 5b means across calls. */
module WalletBudgets {
  import opened Basics
  import opened ScanStore
  import opened WalletSlice
  import opened WalletScores

  /** After a call an address is up to date when it was before or when it was chosen. */
  lemma UpToDateAfter(st: Store, job: Job, addresses: seq<string>, later: Job, a: string)
    requires WalletsValid(st.wallets) && later.keys == job.keys && Reached(st, job, a)
    ensures UpToDate(AfterPersist(st, job, addresses), later, a)
            <==> UpToDate(st, job, a) || a in Chosen(st, job, addresses)
  {
    var chosen, after := Chosen(st, job, addresses), AfterPersist(st, job, addresses);
    ChosenReached(st, job, addresses);
    if a !in chosen {
      RowsOfOthers(st, job, chosen, a, job.keys[a]);
    } else {
      var i :| 0 <= i < |chosen| && chosen[i] == a;
      assert after.decisions[|st.decisions| + i] == RowFor(st, job, a);
      assert IsV1(after.decisions[|st.decisions| + i], st.wallets[a]);
    }
  }

  lemma PendingAfter(st: Store, job: Job, addresses: seq<string>, later: Job)
    requires WalletsValid(st.wallets) && later.keys == job.keys && later.failing == job.failing
    ensures Pending(AfterPersist(st, job, addresses), later, addresses)
            == Pending(st, job, addresses) - Elements(Chosen(st, job, addresses))
  {
    var after := AfterPersist(st, job, addresses);
    forall a | a in addresses && Reached(st, job, a)
      ensures UpToDate(after, later, a) <==> UpToDate(st, job, a) || a in Chosen(st, job, addresses)
    {
      UpToDateAfter(st, job, addresses, later, a);
    }
  }

  /** The wallet, version and key columns of the table, in row order. */
  function Identities(rows: seq<Decision>): seq<(string, string, string)> {
    seq(|rows|, i requires 0 <= i < |rows| => (rows[i].wallet, rows[i].version, rows[i].key))
  }

  lemma ChosenAfter(st: Store, job: Job, addresses: seq<string>, b1: nat, later: Job, b2: nat)
    requires WalletsValid(st.wallets) && job.budget == Some(b1) && later.budget == Some(b2)
    requires later.keys == job.keys && later.failing == job.failing
    ensures var w := Within(SortDistinct(addresses), Pending(st, job, addresses));
            && Chosen(st, job, addresses) == Take(b1, w)
            && Chosen(AfterPersist(st, job, addresses), later, addresses) == Take(b2, w[|Take(b1, w)|..])
  {
    var sorted, pending := SortDistinct(addresses), Pending(st, job, addresses);
    var w := Within(sorted, pending);
    var n := |Take(b1, w)|;
    assert Take(b1, w) == w[..n];
    PendingAfter(st, job, addresses, later);
    var rest := pending - Elements(w[..n]);
    AscendingNoDuplicates(sorted);
    WithinNoDuplicates(sorted, pending);
    WithinWithin(sorted, pending, rest);
    assert pending * rest == rest;
    WithinRest(w, n, rest);
  }

  lemma RowsOfTwoCalls(st: Store, first: Store, j1: Job, j2: Job, j: Job, c1: seq<string>, c2: seq<string>)
    requires first.wallets == st.wallets && j1.keys == j2.keys == j.keys
    requires forall x :: x in c1 + c2 ==> Reached(st, j, x)
    requires forall x :: x in c1 ==> Reached(st, j1, x)
    requires forall x :: x in c2 ==> Reached(first, j2, x)
    ensures Identities(st.decisions + RowsFor(st, j1, c1) + RowsFor(first, j2, c2))
            == Identities(st.decisions + RowsFor(st, j, c1 + c2))
  {
  }

  /** A budget spent in two calls writes what it would have written in one: the same pairs,
      in the same order, whatever the clocks of the three calls are. The first call takes the
      first b1 pending addresses and the second the next b2. */
  lemma BudgetsCompose(st: Store, job: Job, addresses: seq<string>, b1: nat, b2: nat, now1: int, now2: int)
    requires WalletsValid(st.wallets)
    ensures var first := AfterPersist(st, job.(budget := Some(b1), now := now1), addresses);
            var second := AfterPersist(first, job.(budget := Some(b2), now := now2), addresses);
            var once := AfterPersist(st, job.(budget := Some(b1 + b2)), addresses);
            var w := Within(SortDistinct(addresses), Pending(st, job, addresses));
            && Identities(second.decisions) == Identities(once.decisions)
            && Chosen(st, job.(budget := Some(b1), now := now1), addresses) == Take(b1, w)
            && Chosen(first, job.(budget := Some(b2), now := now2), addresses) == Take(b2, w[|Take(b1, w)|..])
  {
    var j1, j2 := job.(budget := Some(b1), now := now1), job.(budget := Some(b2), now := now2);
    var j := job.(budget := Some(b1 + b2));
    var first := AfterPersist(st, j1, addresses);
    ChosenOfTwoCalls(st, job, addresses, b1, b2, j1, j2, j);
    var c1, c2 := Chosen(st, j1, addresses), Chosen(first, j2, addresses);
    assert Pending(st, j1, addresses) == Pending(st, job, addresses);
    ChosenAfter(st, j1, addresses, b1, j2, b2);
    ChosenReached(st, j1, addresses);
    ChosenReached(st, j, addresses);
    ChosenReached(first, j2, addresses);
    RowsOfTwoCalls(st, first, j1, j2, j, c1, c2);
  }

  lemma TakeInTwoSteps<T>(w: seq<T>, b1: nat, b2: nat)
    ensures Take(b1 + b2, w) == Take(b1, w) + Take(b2, w[|Take(b1, w)|..])
  {
  }

  lemma ChosenOfTwoCalls(st: Store, job: Job, addresses: seq<string>, b1: nat, b2: nat, j1: Job, j2: Job, j: Job)
    requires WalletsValid(st.wallets)
    requires j1.keys == j2.keys == j.keys && j1.failing == j2.failing == j.failing
    requires j1.budget == Some(b1) && j2.budget == Some(b2) && j.budget == Some(b1 + b2)
    ensures Chosen(st, j, addresses) == Chosen(st, j1, addresses) + Chosen(AfterPersist(st, j1, addresses), j2, addresses)
  {
    var w := Within(SortDistinct(addresses), Pending(st, j1, addresses));
    assert Pending(st, j1, addresses) == Pending(st, j, addresses);
    ChosenAfter(st, j1, addresses, b1, j2, b2);
    TakeInTwoSteps(w, b1, b2);
  }

  /** A second identical call without a budget limit finds nothing left to write. */
  lemma UnlimitedCallIsIdempotent(st: Store, job: Job, addresses: seq<string>, now: int)
    requires WalletsValid(st.wallets) && job.budget == None
    ensures var first := AfterPersist(st, job, addresses);
            AfterPersist(first, job.(now := now), addresses) == first
  {
    var first, later := AfterPersist(st, job, addresses), job.(now := now);
    PendingAfter(st, job, addresses, later);
    assert Pending(first, later, addresses) == {};
    WithinNothing(SortDistinct(addresses), {});
    assert RowsFor(first, later, []) == [];
  }
}
