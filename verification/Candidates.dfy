/** Step 5d (persist_copy_candidates_for_trades): a loop bounded per wallet and overall. */
module Candidates {
  import opened Basics

  /** What evaluating and persisting one trade does; a status that starts with "rejected" and
      is not "rejected_wallet" counts as another rejection. */
  datatype Attempt = Raises | Created | RejectedWallet | RejectedOther

  /** Addresses with metrics, trades per address, addresses with a wallets row, and what each
      attempt does. */
  datatype Input = Input(
    metrics: set<string>, trades: map<string, seq<string>>, wallets: set<string>,
    attempt: (string, string) -> Attempt)

  /** The attempts that one address offers, in trade order. */
  function Offered(inp: Input, address: string, perWallet: nat): seq<Attempt> {
    if address in inp.metrics && address in inp.trades && address in inp.wallets then
      var trades := Take(perWallet, inp.trades[address]);
      seq(|trades|, i requires 0 <= i < |trades| => inp.attempt(address, trades[i]))
    else []
  }

  /** The attempts of all addresses, concatenated. */
  function AllOffered(inp: Input, addresses: seq<string>, perWallet: nat): seq<Attempt> {
    if addresses == [] then []
    else
      var n := |addresses| - 1;
      AllOffered(inp, addresses[..n], perWallet) + Offered(inp, addresses[n], perWallet)
  }

  function CountOf(s: seq<Attempt>, a: Attempt): nat {
    if s == [] then 0 else CountOf(s[..|s| - 1], a) + (if s[|s| - 1] == a then 1 else 0)
  }

  function Successes(s: seq<Attempt>): nat {
    if s == [] then 0 else Successes(s[..|s| - 1]) + (if s[|s| - 1].Raises? then 0 else 1)
  }

  /** done is the shortest prefix of all with max successes, or all of it when it has fewer. */
  ghost predicate ShortestPrefix(done: seq<Attempt>, all: seq<Attempt>, max: nat) {
    && done <= all && Successes(done) <= max && (done == all || Successes(done) == max)
    && Below(done, max)
  }

  /** Every attempt of done was made below the bound. */
  ghost predicate Below(done: seq<Attempt>, max: nat) {
    forall m :: 0 <= m < |done| ==> Successes(done[..m]) < max
  }

  lemma {:induction false} SuccessesMonotone(s: seq<Attempt>, m: nat)
    requires m <= |s|
    ensures Successes(s[..m]) <= Successes(s)
    decreases |s|
  {
    if m < |s| {
      var n := |s| - 1;
      SuccessesMonotone(s[..n], m);
      assert s[..n][..m] == s[..m];
    } else {
      assert s[..m] == s;
    }
  }

  /** There is only one such prefix, and its successes are as many as both bounds allow. */
  lemma ShortestPrefixIsUnique(a: seq<Attempt>, b: seq<Attempt>, all: seq<Attempt>, max: nat)
    requires ShortestPrefix(a, all, max) && ShortestPrefix(b, all, max)
    ensures a == b && Successes(a) == Min(max, Successes(all))
  {
    SuccessesMonotone(all, |a|);
    var k := Min(|a|, |b|);
    assert a[..k] == all[..k] == b[..k] && all[..|a|] == a;
    assert k == |a| ==> a[..k] == a;
    assert k == |b| ==> b[..k] == b;
  }

  /** Successes are counted exactly once by kind. */
  lemma {:induction false} SuccessesByKind(s: seq<Attempt>)
    ensures Successes(s) == CountOf(s, Created) + CountOf(s, RejectedWallet) + CountOf(s, RejectedOther)
    ensures Successes(s) + CountOf(s, Raises) == |s|
  {
    if s != [] {
      SuccessesByKind(s[..|s| - 1]);
    }
  }

  // ---- which attempts there are ----------------------------------------------------------------

  /** An address with metrics, trades and a wallets row offers its first perWallet trades, in order;
      every other address offers nothing. */
  lemma OfferedAre(inp: Input, address: string, perWallet: nat)
    ensures var offered := Offered(inp, address, perWallet);
            if address in inp.metrics && address in inp.trades && address in inp.wallets then
              && |offered| == Min(perWallet, |inp.trades[address]|)
              && forall j :: 0 <= j < |offered| ==> offered[j] == inp.attempt(address, inp.trades[address][j])
            else offered == []
  {
  }

  /** The addresses offer one after the other. */
  lemma {:induction false} OffersConcat(inp: Input, a: seq<string>, b: seq<string>, perWallet: nat)
    ensures AllOffered(inp, a + b, perWallet) == AllOffered(inp, a, perWallet) + AllOffered(inp, b, perWallet)
    ensures |a| == 1 ==> AllOffered(inp, a, perWallet) == Offered(inp, a[0], perWallet)
  {
    if |a| == 1 {
      assert a[..0] == [];
    }
    if b == [] {
      assert a + b == a;
    } else {
      var n := |b| - 1;
      OffersConcat(inp, a, b[..n], perWallet);
      assert (a + b)[..|a + b| - 1] == a + b[..n];
      Associates(AllOffered(inp, a, perWallet), AllOffered(inp, b[..n], perWallet), Offered(inp, b[n], perWallet));
    }
  }

  function Positions(s: seq<Attempt>, a: Attempt): set<nat> {
    set i: nat | i < |s| && s[i] == a
  }

  lemma PositionsSnoc(s: seq<Attempt>, n: nat, a: Attempt)
    requires |s| == n + 1
    ensures |Positions(s, a)| == |Positions(s[..n], a)| + (if s[n] == a then 1 else 0)
  {
    var all := if s[n] == a then Positions(s[..n], a) + {n} else Positions(s[..n], a);
    assert Positions(s, a) == all;
  }

  /** The counts are numbers of attempts. */
  lemma {:induction false} CountsAreAttempts(s: seq<Attempt>, a: Attempt)
    ensures CountOf(s, a) == |Positions(s, a)|
  {
    if s != [] {
      CountsAreAttempts(s[..|s| - 1], a);
      PositionsSnoc(s, |s| - 1, a);
    }
  }

  class CandidateCounters {
    var tradesScannedForCandidates: nat
    var copyCandidatesCreated: nat
    var copyCandidatesRejectedWallet: nat
    var copyCandidatesRejectedOther: nat

    constructor ()
      ensures tradesScannedForCandidates == copyCandidatesCreated == 0
      ensures copyCandidatesRejectedWallet == copyCandidatesRejectedOther == 0
    {
      tradesScannedForCandidates, copyCandidatesCreated := 0, 0;
      copyCandidatesRejectedWallet, copyCandidatesRejectedOther := 0, 0;
    }

    /** The counters are those of these attempts. */
    ghost predicate CountsOf(done: seq<Attempt>)
      reads this
    {
      && tradesScannedForCandidates == |done| && copyCandidatesCreated == CountOf(done, Created)
      && copyCandidatesRejectedWallet == CountOf(done, RejectedWallet)
      && copyCandidatesRejectedOther == CountOf(done, RejectedOther)
    }
  }

  lemma OfferedPrefix(inp: Input, addresses: seq<string>, perWallet: nat, i: nat)
    requires i < |addresses|
    ensures AllOffered(inp, addresses[..i + 1], perWallet)
            == AllOffered(inp, addresses[..i], perWallet) + Offered(inp, addresses[i], perWallet)
  {
    assert addresses[..i + 1][..i] == addresses[..i];
  }

  lemma {:induction false} OfferedGrows(inp: Input, addresses: seq<string>, perWallet: nat, i: nat)
    requires i <= |addresses|
    ensures AllOffered(inp, addresses[..i], perWallet) <= AllOffered(inp, addresses, perWallet)
    decreases |addresses|
  {
    if i < |addresses| {
      var n := |addresses| - 1;
      OfferedGrows(inp, addresses[..n], perWallet, i);
      assert addresses[..n][..i] == addresses[..i];
    } else {
      assert addresses[..i] == addresses;
    }
  }

  /** One more attempt below the bound extends a shortest prefix. */
  lemma OneMore(done: seq<Attempt>, a: Attempt, max: nat)
    requires Successes(done) < max && Below(done, max)
    ensures Successes(done + [a]) == Successes(done) + (if a.Raises? then 0 else 1) <= max
    ensures Below(done + [a], max)
  {
    assert (done + [a])[..|done|] == done;
    forall m | 0 <= m < |done| ensures (done + [a])[..m] == done[..m] {}
  }

  lemma CountsSnoc(done: seq<Attempt>, a: Attempt)
    ensures forall k :: CountOf(done + [a], k) == CountOf(done, k) + (if a == k then 1 else 0)
  {
    assert (done + [a])[..|done|] == done;
  }

  /** One trade: scanned, attempted, and counted by what became of it. */
  method ScanTrade(inp: Input, address: string, trade: string, counters: CandidateCounters, ghost done: seq<Attempt>)
      returns (outcome: Attempt)
    requires counters.CountsOf(done)
    modifies counters
    ensures outcome == inp.attempt(address, trade) && counters.CountsOf(done + [outcome])
  {
    counters.tradesScannedForCandidates := counters.tradesScannedForCandidates + 1;
    outcome := inp.attempt(address, trade);
    CountsSnoc(done, outcome);
    match outcome {
      case Raises =>
      case Created => counters.copyCandidatesCreated := counters.copyCandidatesCreated + 1;
      case RejectedWallet => counters.copyCandidatesRejectedWallet := counters.copyCandidatesRejectedWallet + 1;
      case RejectedOther => counters.copyCandidatesRejectedOther := counters.copyCandidatesRejectedOther + 1;
    }
  }

  /** Attempts made so far: some before this wallet, and the first k that it offers. */
  ghost predicate Scanned(before: seq<Attempt>, offered: seq<Attempt>, k: nat, done: seq<Attempt>, max: nat)
    requires k <= |offered|
  {
    done == before + offered[..k] && Successes(done) <= max && Below(done, max)
  }

  lemma ScannedStep(before: seq<Attempt>, offered: seq<Attempt>, k: nat, done: seq<Attempt>, max: nat)
    requires k < |offered| && Scanned(before, offered, k, done, max) && Successes(done) < max
    ensures Scanned(before, offered, k + 1, done + [offered[k]], max)
    ensures Successes(done + [offered[k]]) == Successes(done) + (if offered[k].Raises? then 0 else 1)
  {
    OneMore(done, offered[k], max);
    assert offered[..k + 1] == offered[..k] + [offered[k]];
    Associates(before, offered[..k], [offered[k]]);
  }

  /** The trades of one wallet. */
  method ScanTrades(inp: Input, address: string, trades: seq<string>, counters: CandidateCounters,
                    already: nat, max: nat, ghost before: seq<Attempt>, ghost offered: seq<Attempt>)
      returns (persisted: nat, ghost done: seq<Attempt>, ghost k: nat)
    requires |offered| == |trades| && forall j :: 0 <= j < |trades| ==> offered[j] == inp.attempt(address, trades[j])
    requires already == Successes(before) < max && Below(before, max) && counters.CountsOf(before)
    modifies counters
    ensures k <= |offered| && Scanned(before, offered, k, done, max) && counters.CountsOf(done)
    ensures persisted == Successes(done) && (persisted < max ==> k == |offered|)
  {
    persisted, done, k := already, before, 0;
    for j := 0 to |trades|
      invariant k == j && Scanned(before, offered, k, done, max) && counters.CountsOf(done)
      invariant persisted == Successes(done) < max
    {
      var outcome := ScanTrade(inp, address, trades[j], counters, done);
      ScannedStep(before, offered, k, done, max);
      done, k := done + [outcome], k + 1;
      if !outcome.Raises? {
        persisted := persisted + 1;
        if persisted >= max {
          return;
        }
      }
    }
  }

  /** What a wallet's scan leaves attempted is a prefix of everything offered. */
  lemma ScannedIsPrefix(inp: Input, addresses: seq<string>, perWallet: nat, i: nat, before: seq<Attempt>, k: nat,
                        done: seq<Attempt>, max: nat)
    requires i < |addresses| && before == AllOffered(inp, addresses[..i], perWallet)
    requires k <= |Offered(inp, addresses[i], perWallet)|
    requires Scanned(before, Offered(inp, addresses[i], perWallet), k, done, max)
    ensures done <= AllOffered(inp, addresses, perWallet)
    ensures k == |Offered(inp, addresses[i], perWallet)| ==> done == AllOffered(inp, addresses[..i + 1], perWallet)
  {
    var offered := Offered(inp, addresses[i], perWallet);
    OfferedPrefix(inp, addresses, perWallet, i);
    OfferedGrows(inp, addresses, perWallet, i + 1);
    assert done <= before + offered;
    assert k == |offered| ==> offered[..k] == offered;
  }

  /** persist_copy_candidates_for_trades: exactly the shortest prefix of the offered attempts
      with the allowed number of successes is attempted, whatever raises. */
  method PersistCopyCandidates(inp: Input, addresses: seq<string>, counters: CandidateCounters,
                               maxPaperCandidates: int, maxTradesPerWallet: int)
      returns (persisted: nat, ghost done: seq<Attempt>)
    requires counters.CountsOf([])
    modifies counters
    ensures ShortestPrefix(done, if maxTradesPerWallet <= 0 then [] else AllOffered(inp, addresses, maxTradesPerWallet),
                           Max(0, maxPaperCandidates))
    ensures persisted == Successes(done) && counters.CountsOf(done)
    ensures persisted == counters.copyCandidatesCreated + counters.copyCandidatesRejectedWallet
                         + counters.copyCandidatesRejectedOther
  {
    persisted, done := 0, [];
    if maxPaperCandidates <= 0 || maxTradesPerWallet <= 0 {
      return;
    }
    for i := 0 to |addresses|
      invariant persisted == Successes(done) < maxPaperCandidates && counters.CountsOf(done)
      invariant Below(done, maxPaperCandidates)
      invariant done == AllOffered(inp, addresses[..i], maxTradesPerWallet)
    {
      var address := addresses[i];
      if address in inp.metrics && address in inp.trades && address in inp.wallets {
        ghost var before, k := done, 0;
        persisted, done, k := ScanTrades(inp, address, Take(maxTradesPerWallet, inp.trades[address]), counters,
                                         persisted, maxPaperCandidates, done, Offered(inp, address, maxTradesPerWallet));
        ScannedIsPrefix(inp, addresses, maxTradesPerWallet, i, before, k, done, maxPaperCandidates);
        if persisted >= maxPaperCandidates {
          SuccessesByKind(done);
          return;
        }
      } else {
        OfferedPrefix(inp, addresses, maxTradesPerWallet, i);
      }
    }
    assert addresses[..|addresses|] == addresses;
    SuccessesByKind(done);
  }
}
