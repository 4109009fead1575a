/** The bounded wallet slice (resolve_bounded_wallet_slice, _classify_wallet_state): which
    addresses a run may look at when at most cap of them may be processed. */
module WalletSlice {
  import opened Basics
  import opened ScanStore
  import opened KeyCache

  // ---- what the slice is ---------------------------------------------------------------

  function Elements<T(!new)>(s: seq<T>): set<T> {
    set x | x in s
  }

  /** Fresh and material-changed addresses: the ones that consume budget. */
  function Backlog(st: Store, addresses: seq<string>): set<string> {
    set a | a in addresses && StateOf(st, a) != AlreadyScored
  }

  /** The distinct addresses in order of preference: those classified as needing work first,
      then by address. */
  function Ranking(addresses: seq<string>, needs: set<string>): seq<string> {
    var sorted := SortDistinct(addresses);
    Within(sorted, needs) + Within(sorted, Elements(addresses) - needs)
  }

  function SliceFrom(addresses: seq<string>, needs: set<string>, cap: nat): seq<string> {
    SortDistinct(Take(cap, Ranking(addresses, needs)))
  }

  /** a is preferred to b: it needs work and b does not, or they tie and a sorts first. */
  predicate Preferred(needs: set<string>, a: string, b: string) {
    (a in needs && b !in needs) || ((a in needs <==> b in needs) && Less(a, b))
  }

  /** Ranking is the one arrangement of the distinct addresses that the preference allows. */
  lemma RankingIsThePreferenceOrder(addresses: seq<string>, needs: set<string>)
    ensures var r := Ranking(addresses, needs);
            && (forall x :: x in r <==> x in addresses)
            && (forall i, j :: 0 <= i < j < |r| ==> Preferred(needs, r[i], r[j]))
            && NoDuplicates(r)
            && |r| == |SortDistinct(addresses)| == |Elements(addresses)|
  {
    var sorted, done := SortDistinct(addresses), Elements(addresses) - needs;
    var p, q, r := Within(sorted, needs), Within(sorted, done), Ranking(addresses, needs);
    WithinAscending(sorted, needs);
    WithinAscending(sorted, done);
    forall i, j | 0 <= i < j < |r| ensures Preferred(needs, r[i], r[j]) && r[i] != r[j] {
      assert i < |p| ==> r[i] in p;
      assert i >= |p| ==> r[i] in q;
      assert j < |p| ==> r[j] in p;
      assert j >= |p| ==> r[j] in q;
      LessIrreflexive(r[i]);
    }
    AscendingNoDuplicates(sorted);
    SizeOfElements(sorted);
    SizeOfElements(r);
    assert Elements(sorted) == Elements(r) == Elements(addresses);
  }

  /** The addresses preferred to the k-th one are the k before it. */
  lemma AheadInRanking(addresses: seq<string>, needs: set<string>, k: nat)
    requires k < |Ranking(addresses, needs)|
    ensures var r := Ranking(addresses, needs);
            |set b | b in addresses && Preferred(needs, b, r[k])| == k
  {
    var r := Ranking(addresses, needs);
    RankingIsThePreferenceOrder(addresses, needs);
    var ahead := set b | b in addresses && Preferred(needs, b, r[k]);
    forall b ensures b in ahead <==> b in r[..k] {
      if b in addresses {
        var i :| 0 <= i < |r| && r[i] == b;
        PreferredAsymmetric(needs, r[k], b);
        assert i < k ==> r[..k][i] == b;
      }
    }
    assert ahead == Elements(r[..k]);
    SizeOfElements(r[..k]);
  }

  /** How many addresses are preferred to this one. */
  function Rank(addresses: seq<string>, needs: set<string>, a: string): nat {
    |set b | b in addresses && Preferred(needs, b, a)|
  }

  /** An address makes the slice exactly when fewer than cap addresses are preferred to it. */
  lemma SliceMembership(addresses: seq<string>, needs: set<string>, cap: nat, a: string)
    requires a in addresses
    ensures a in SliceFrom(addresses, needs, cap) <==> Rank(addresses, needs, a) < cap
  {
    var r := Ranking(addresses, needs);
    RankingIsThePreferenceOrder(addresses, needs);
    var k :| 0 <= k < |r| && r[k] == a;
    AheadInRanking(addresses, needs, k);
    var t := Take(cap, r);
    assert k < |t| ==> t[k] == a;
    assert a in t ==> exists i :: 0 <= i < |t| && r[i] == a;
  }

  lemma PreferredAsymmetric(needs: set<string>, a: string, b: string)
    ensures !(Preferred(needs, a, b) && Preferred(needs, b, a))
    ensures !Preferred(needs, a, a)
  {
    LessIrreflexive(a);
    if Less(a, b) && Less(b, a) {
      LessTransitive(a, b, a);
    }
  }

  /** Size and composition of the slice. */
  lemma SliceShape(addresses: seq<string>, needs: set<string>, cap: nat)
    ensures var s := SliceFrom(addresses, needs, cap);
            && Ascending(s) && |s| == Min(cap, |Elements(addresses)|)
            && (forall x :: x in s <==> x in Take(cap, Ranking(addresses, needs)))
            && (forall x :: x in s ==> x in addresses)
  {
    var r := Ranking(addresses, needs);
    RankingIsThePreferenceOrder(addresses, needs);
    var s := SliceFrom(addresses, needs, cap);
    var t := Take(cap, r);
    assert NoDuplicates(t);
    SizeOfElements(t);
    AscendingNoDuplicates(s);
    SizeOfElements(s);
    assert Elements(s) == Elements(t);
    forall x | x in t ensures x in r { }
  }

  // ---- classification when queries may fail ------------------------------------------------

  /** Which of the three queries of the classification fail; a failure is swallowed and leaves
      its result empty. */
  datatype Lost = Lost(keys: bool, stamps: bool, trades: bool)

  const NOTHING_LOST := Lost(false, false, false)

  predicate SeenOutdated(st: Store, lost: Lost, a: string)
    requires a in st.wallets
  {
    !lost.trades
    && exists j :: 0 <= j < |st.trades| && st.trades[j].trader == Some(a)
                   && (lost.stamps || NewerThanRows(st.trades[j], st.decisions, st.wallets[a]))
  }

  /** The state that the classification assigns from what it could read. */
  function SeenState(st: Store, lost: Lost, a: string): WalletState {
    if a !in st.wallets || lost.keys || !HasPrior(st.decisions, st.wallets[a]) then Fresh
    else if SeenOutdated(st, lost, a) then MaterialChanged
    else AlreadyScored
  }

  function InState(st: Store, lost: Lost, addresses: seq<string>, state: WalletState): set<string> {
    set a | a in addresses && SeenState(st, lost, a) == state
  }

  /** The addresses that the classification sends to the first pass. */
  function Needs(st: Store, lost: Lost, addresses: seq<string>): set<string> {
    set a | a in addresses && SeenState(st, lost, a) != AlreadyScored
  }

  /** Without failures it is the store's own state. */
  lemma NothingLostSeesBacklog(st: Store, addresses: seq<string>)
    ensures Needs(st, NOTHING_LOST, addresses) == Backlog(st, addresses)
    ensures forall a :: SeenState(st, NOTHING_LOST, a) == StateOf(st, a)
  {
    forall a ensures SeenState(st, NOTHING_LOST, a) == StateOf(st, a) {}
  }

  /** When the key pre-load fails every wallet counts as fresh, and the slice is the first cap
      addresses, whatever has been scored. */
  lemma BlindSlice(st: Store, lost: Lost, addresses: seq<string>, cap: nat)
    requires lost.keys
    ensures SliceFrom(addresses, Needs(st, lost, addresses), cap) == Take(cap, SortDistinct(addresses))
  {
    var sorted, needs := SortDistinct(addresses), Needs(st, lost, addresses);
    WithinEverything(sorted, needs);
    WithinNothing(sorted, Elements(addresses) - needs);
    assert Ranking(addresses, needs) == sorted;
    SortDistinctOfAscending(Take(cap, sorted));
  }

  // ---- classification --------------------------------------------------------------------

  /** The wallet ids found for the addresses. */
  function IdsOf(wallets: map<string, string>, addresses: seq<string>): set<string> {
    set a | a in addresses && a in wallets :: wallets[a]
  }

  /** MAX(source_data_timestamp) over the V1 rows of one wallet. */
  function NewestStamp(rows: seq<Decision>, wallet: string): Option<int> {
    if rows == [] then None
    else
      var n := |rows| - 1;
      var rest := NewestStamp(rows[..n], wallet);
      if !IsV1(rows[n], wallet) then rest
      else Some(if rest.None? then rows[n].stamp else Max(rest.value, rows[n].stamp))
  }

  lemma {:induction false} NewestStampBounds(rows: seq<Decision>, wallet: string)
    ensures NewestStamp(rows, wallet).Some? <==> HasPrior(rows, wallet)
    ensures forall t: Trade ::
              NewerThanRows(t, rows, wallet)
              <==> NewestStamp(rows, wallet).None? || NewestStamp(rows, wallet).value < t.at
  {
    if rows != [] {
      var n := |rows| - 1;
      NewestStampBounds(rows[..n], wallet);
      assert HasPrior(rows, wallet) <==> HasPrior(rows[..n], wallet) || IsV1(rows[n], wallet) by {
        if i :| 0 <= i < n && IsV1(rows[..n][i], wallet) { assert IsV1(rows[i], wallet); }
        if i :| 0 <= i <= n && IsV1(rows[i], wallet) { assert i < n ==> IsV1(rows[..n][i], wallet); }
      }
      forall t: Trade
        ensures NewerThanRows(t, rows, wallet)
                <==> NewerThanRows(t, rows[..n], wallet) && (IsV1(rows[n], wallet) ==> rows[n].stamp < t.at)
      {
        assert forall i :: 0 <= i < n ==> rows[..n][i] == rows[i];
        assert NewerThanRows(t, rows, wallet) ==> NewerThanRows(t, rows[..n], wallet) by {
          if NewerThanRows(t, rows, wallet) {
            forall i | 0 <= i < n && IsV1(rows[..n][i], wallet) ensures rows[..n][i].stamp < t.at {
              assert IsV1(rows[i], wallet);
            }
          }
        }
      }
    }
  }

  /** MAX(timestamp) over the trades recorded under exactly this address. */
  function NewestTrade(trades: seq<Trade>, address: string): Option<int> {
    if trades == [] then None
    else
      var n := |trades| - 1;
      var rest := NewestTrade(trades[..n], address);
      if trades[n].trader != Some(address) then rest
      else Some(if rest.None? then trades[n].at else Max(rest.value, trades[n].at))
  }

  lemma {:induction false} NewestTradeBounds(trades: seq<Trade>, address: string)
    ensures forall t ::
              t in trades && t.trader == Some(address)
              ==> NewestTrade(trades, address).Some? && t.at <= NewestTrade(trades, address).value
    ensures NewestTrade(trades, address).Some?
            ==> exists t :: t in trades && t.trader == Some(address) && t.at == NewestTrade(trades, address).value
  {
    if trades != [] {
      var n := |trades| - 1;
      NewestTradeBounds(trades[..n], address);
      assert trades == trades[..n] + [trades[n]];
    }
  }

  /** Comparing the two maxima is the material-change test. */
  lemma NewestDecides(st: Store, a: string)
    requires a in st.wallets && HasPrior(st.decisions, st.wallets[a])
    ensures NewestStamp(st.decisions, st.wallets[a]).Some?
    ensures Outdated(st, a)
            <==> && NewestTrade(st.trades, a).Some?
                 && NewestTrade(st.trades, a).value > NewestStamp(st.decisions, st.wallets[a]).value
  {
    var w := st.wallets[a];
    NewestStampBounds(st.decisions, w);
    NewestTradeBounds(st.trades, a);
    if Outdated(st, a) {
      var i :| 0 <= i < |st.trades| && st.trades[i].trader == Some(a) && NewerThanRows(st.trades[i], st.decisions, w);
      assert st.trades[i] in st.trades;
    }
    if NewestTrade(st.trades, a).Some? {
      var t :| t in st.trades && t.trader == Some(a) && t.at == NewestTrade(st.trades, a).value;
      var i :| 0 <= i < |st.trades| && st.trades[i] == t;
      assert NewerThanRows(t, st.decisions, w) ==> Outdated(st, a);
    }
  }

  /** The newest trade of each wallet that has prior rows, over the addresses that name it. */
  method NewestTradePerWallet(db: Database, sortedAddresses: seq<string>, withPrior: set<string>)
    returns (lastTrade: map<string, int>)
    requires WalletsValid(db.wallets)
    ensures forall a :: a in sortedAddresses && a in db.wallets && db.wallets[a] in withPrior ==>
              (if db.wallets[a] in lastTrade then Some(lastTrade[db.wallets[a]]) else None) == NewestTrade(db.trades, a)
  {
    lastTrade := map[];
    for n := 0 to |sortedAddresses|
      invariant forall a :: a in sortedAddresses[..n] && a in db.wallets && db.wallets[a] in withPrior ==>
              (if db.wallets[a] in lastTrade then Some(lastTrade[db.wallets[a]]) else None) == NewestTrade(db.trades, a)
      invariant forall w :: w in lastTrade ==> exists a :: a in sortedAddresses[..n] && a in db.wallets && db.wallets[a] == w
    {
      var a := sortedAddresses[n];
      assert sortedAddresses[..n + 1] == sortedAddresses[..n] + [a];
      if a in db.wallets && db.wallets[a] in withPrior {
        var w := db.wallets[a];
        var t := NewestTrade(db.trades, a);
        if t.Some? {
          if w !in lastTrade || t.value > lastTrade[w] {
            lastTrade := lastTrade[w := t.value];
          }
        }
      }
    }
    assert sortedAddresses[..|sortedAddresses|] == sortedAddresses;
  }

  /** What _existing_wallet_idem_keys returns. */
  function PreloadedKeys(st: Store, lost: Lost, addresses: seq<string>): set<string> {
    if lost.keys then {} else Cache(st.decisions, IdsOf(st.wallets, addresses))
  }

  /** One wallet, from the pre-loaded keys and the two maxima. */
  lemma SeenStateDecided(st: Store, lost: Lost, addresses: seq<string>, a: string)
    requires WalletsValid(st.wallets) && a in addresses && a in st.wallets
    ensures var w := st.wallets[a];
            var prior := AnyStartsWith(PreloadedKeys(st, lost, addresses), w + "|");
            var trade := if lost.trades then None else NewestTrade(st.trades, a);
            var scored := if lost.stamps then None else NewestStamp(st.decisions, w);
            SeenState(st, lost, a)
            == if !prior then Fresh
               else if trade.Some? && (scored.None? || trade.value > scored.value) then MaterialChanged
               else AlreadyScored
  {
    var w := st.wallets[a];
    if !lost.keys {
      CacheDecidesWallets(st.decisions, IdsOf(st.wallets, addresses), w);
      if HasPrior(st.decisions, w) {
        NewestDecides(st, a);
        NewestTradeExists(st.trades, a);
      }
    }
  }

  lemma NewestTradeExists(trades: seq<Trade>, a: string)
    ensures NewestTrade(trades, a).Some? <==> exists j :: 0 <= j < |trades| && trades[j].trader == Some(a)
  {
    NewestTradeBounds(trades, a);
    if j :| 0 <= j < |trades| && trades[j].trader == Some(a) {
      assert trades[j] in trades;
    }
  }

  method ClassifyWalletState(db: Database, sortedAddresses: seq<string>, existingKeys: set<string>, lost: Lost)
    returns (unscored: set<string>, scored: set<string>, changed: set<string>)
    requires WalletsValid(db.wallets)
    requires existingKeys == PreloadedKeys(db.Contents(), lost, sortedAddresses)
    ensures unscored == InState(db.Contents(), lost, sortedAddresses, Fresh)
    ensures scored == InState(db.Contents(), lost, sortedAddresses, AlreadyScored)
    ensures changed == InState(db.Contents(), lost, sortedAddresses, MaterialChanged)
  {
    ghost var st := db.Contents();
    var ids := IdsOf(db.wallets, sortedAddresses);
    var withPrior := set w | w in ids && AnyStartsWith(existingKeys, w + "|");
    var lastTrade := map[];
    if !lost.trades {
      lastTrade := NewestTradePerWallet(db, sortedAddresses, withPrior);
    }
    unscored, scored, changed := {}, {}, {};
    for n := 0 to |sortedAddresses|
      invariant unscored == InState(st, lost, sortedAddresses[..n], Fresh)
      invariant scored == InState(st, lost, sortedAddresses[..n], AlreadyScored)
      invariant changed == InState(st, lost, sortedAddresses[..n], MaterialChanged)
    {
      var a := sortedAddresses[n];
      InStateStep(st, lost, sortedAddresses, n);
      if a !in db.wallets || db.wallets[a] !in withPrior {
        if a in db.wallets {
          SeenStateDecided(st, lost, sortedAddresses, a);
        }
        unscored := unscored + {a};
      } else {
        var w := db.wallets[a];
        SeenStateDecided(st, lost, sortedAddresses, a);
        var scoredAt := if lost.stamps then None else NewestStamp(db.decisions, w);
        if w in lastTrade && (scoredAt.None? || lastTrade[w] > scoredAt.value) {
          changed := changed + {a};
        } else {
          scored := scored + {a};
        }
      }
    }
    assert sortedAddresses[..|sortedAddresses|] == sortedAddresses;
  }

  lemma InStateStep(st: Store, lost: Lost, addresses: seq<string>, n: nat)
    requires n < |addresses|
    ensures forall state ::
              InState(st, lost, addresses[..n + 1], state)
              == InState(st, lost, addresses[..n], state)
                 + (if SeenState(st, lost, addresses[n]) == state then {addresses[n]} else {})
  {
    assert addresses[..n + 1] == addresses[..n] + [addresses[n]];
  }

  // ---- the slice itself ------------------------------------------------------------------

  datatype Telemetry = Telemetry(
    addressesInSlice: seq<string>,
    considered: nat,
    inSliceFresh: nat,
    inSliceAlreadyScored: nat,
    inSliceTotal: nat,
    deferred: nat)

  datatype SliceResult = Sliced(telemetry: Telemetry) | AssertionFailed

  /** The lists that the nested _append function closes over. */
  class SliceBuilder {
    var capRemaining: Option<int>
    var addressesInSlice: seq<string>
    var selectedFresh: seq<string>
    var selectedAlreadyScored: seq<string>

    constructor (cap: Option<int>)
      ensures capRemaining == cap && addressesInSlice == selectedFresh == selectedAlreadyScored == []
    {
      capRemaining, addressesInSlice, selectedFresh, selectedAlreadyScored := cap, [], [], [];
    }

    /** The slice so far is the first cap of the offered addresses, and so are its parts. */
    ghost predicate Holds(cap: Option<int>, needs: seq<string>, done: seq<string>)
      reads this
    {
      match cap
      case None =>
        && capRemaining == None && addressesInSlice == needs + done
        && selectedFresh == selectedAlreadyScored == []
      case Some(c) =>
        && c > 0 && capRemaining == Some(c - |addressesInSlice|)
        && addressesInSlice == Take(c, needs + done)
        && selectedFresh == Take(c, needs)
        && addressesInSlice == selectedFresh + selectedAlreadyScored
    }

    method Append(address: string, unscored: bool, ghost cap: Option<int>, ghost needs: seq<string>, ghost done: seq<string>)
      requires Holds(cap, needs, done) && (unscored ==> done == [])
      modifies this
      ensures unscored ==> Holds(cap, needs + [address], done)
      ensures !unscored ==> Holds(cap, needs, done + [address])
    {
      assert needs + (done + [address]) == (needs + done) + [address];
      assert done == [] ==> (needs + [address]) + done == (needs + done) + [address];
      if capRemaining.None? {
        addressesInSlice := addressesInSlice + [address];
        return;
      }
      if capRemaining.value <= 0 {
        return;
      }
      addressesInSlice := addressesInSlice + [address];
      capRemaining := Some(capRemaining.value - 1);
      if unscored {
        selectedFresh := selectedFresh + [address];
      } else {
        selectedAlreadyScored := selectedAlreadyScored + [address];
      }
    }
  }

  /** Pass 1: fresh and material-changed wallets. */
  method PassOne(b: SliceBuilder, sorted: seq<string>, needs: set<string>, ghost cap: Option<int>)
    requires b.Holds(cap, [], [])
    modifies b
    ensures b.Holds(cap, Within(sorted, needs), [])
  {
    ghost var offered: seq<string> := [];
    for n := 0 to |sorted|
      invariant offered == Within(sorted[..n], needs)
      invariant b.Holds(cap, offered, [])
    {
      WithinSnoc(sorted, n, needs);
      if sorted[n] in needs {
        b.Append(sorted[n], true, cap, offered, []);
        offered := offered + [sorted[n]];
      }
    }
    assert sorted[..|sorted|] == sorted;
  }

  /** Pass 2: already scored wallets as fillers. */
  method PassTwo(b: SliceBuilder, sorted: seq<string>, done: set<string>, ghost cap: Option<int>, ghost first: seq<string>)
    requires b.Holds(cap, first, [])
    modifies b
    ensures b.Holds(cap, first, Within(sorted, done))
  {
    ghost var offered: seq<string> := [];
    for n := 0 to |sorted|
      invariant offered == Within(sorted[..n], done)
      invariant b.Holds(cap, first, offered)
    {
      WithinSnoc(sorted, n, done);
      if sorted[n] in done {
        b.Append(sorted[n], false, cap, first, offered);
        offered := offered + [sorted[n]];
      }
    }
    assert sorted[..|sorted|] == sorted;
  }

  method SelectInTwoPasses(sorted: seq<string>, needs: set<string>, done: set<string>, cap: Option<int>)
    returns (slice: seq<string>, selectedFresh: seq<string>, selectedAlreadyScored: seq<string>)
    requires cap.Some? ==> cap.value > 0
    ensures cap.None? ==>
              slice == Within(sorted, needs) + Within(sorted, done) && selectedFresh == selectedAlreadyScored == []
    ensures cap.Some? ==>
              && slice == Take(cap.value, Within(sorted, needs) + Within(sorted, done))
              && selectedFresh == Take(cap.value, Within(sorted, needs))
              && slice == selectedFresh + selectedAlreadyScored
  {
    var b := new SliceBuilder(cap);
    PassOne(b, sorted, needs, cap);
    PassTwo(b, sorted, done, cap, Within(sorted, needs));
    slice, selectedFresh, selectedAlreadyScored :=
      b.addressesInSlice, b.selectedFresh, b.selectedAlreadyScored;
  }

  lemma SortedSize(s: seq<string>)
    ensures |SortDistinct(s)| == |Elements(s)|
    ensures NoDuplicates(s) ==> |SortDistinct(s)| == |s|
  {
    AscendingNoDuplicates(SortDistinct(s));
    SizeOfElements(SortDistinct(s));
    assert Elements(SortDistinct(s)) == Elements(s);
    if NoDuplicates(s) {
      SizeOfElements(s);
    }
  }

  lemma NeedsSize(addresses: seq<string>, needs: set<string>)
    requires forall x :: x in needs ==> x in addresses
    ensures |Within(SortDistinct(addresses), needs)| == |needs|
  {
    var sorted := SortDistinct(addresses);
    AscendingNoDuplicates(sorted);
    WithinNoDuplicates(sorted, needs);
    SizeOfElements(Within(sorted, needs));
    assert Elements(Within(sorted, needs)) == needs;
  }

  /** What a capped call promises about its telemetry. */
  ghost predicate CappedSlice(addresses: seq<string>, needs: set<string>, cap: nat, t: Telemetry) {
    && t.addressesInSlice == SliceFrom(addresses, needs, cap)
    && t.considered == |Elements(addresses)|
    && t.inSliceFresh == Min(cap, |needs|)
    && t.inSliceFresh + t.inSliceAlreadyScored == t.inSliceTotal == Min(cap, t.considered)
    && t.inSliceTotal + t.deferred == t.considered
  }

  /** resolve_bounded_wallet_slice. With a cap the slice is the cap best-ranked addresses in
      address order, ranked by what the classification could read. Without one, _append
      returns before it records anything, so the closing assertion compares zero with the
      length of the slice and fails on every non-empty corpus, although the documentation
      promises the full list. */
  method ResolveBoundedWalletSlice(db: Database, addresses: seq<string>, maxWalletScores: Option<int>, lost: Lost)
    returns (r: SliceResult)
    requires WalletsValid(db.wallets)
    ensures r.AssertionFailed? <==> (maxWalletScores.None? || maxWalletScores.value <= 0) && addresses != []
    ensures r.Sliced? && maxWalletScores.Some? && maxWalletScores.value > 0 ==>
              CappedSlice(addresses, Needs(db.Contents(), lost, addresses), maxWalletScores.value, r.telemetry)
    ensures addresses == [] ==> r == Sliced(Telemetry([], 0, 0, 0, 0, 0))
  {
    ghost var st := db.Contents();
    var sorted := SortDistinct(addresses);
    var cap := if maxWalletScores.Some? && maxWalletScores.value > 0 then maxWalletScores else None;
    var existingKeys := PreloadedKeys(db.Contents(), lost, sorted);
    var unscored, scored, changed := ClassifyWalletState(db, sorted, existingKeys, lost);
    StatesOfSorted(st, lost, addresses);
    var chosen, selectedFresh, selectedAlreadyScored :=
      SelectInTwoPasses(sorted, unscored + changed, scored, cap);
    r := Conclude(sorted, changed, cap, chosen, selectedFresh, selectedAlreadyScored);
    if cap.Some? {
      CappedConclusion(addresses, Needs(st, lost, addresses), changed, cap.value, chosen, selectedFresh,
                       selectedAlreadyScored);
    } else {
      UncappedConclusion(addresses, Needs(st, lost, addresses), changed, chosen);
    }
  }

  lemma StatesOfSorted(st: Store, lost: Lost, addresses: seq<string>)
    ensures var s := SortDistinct(addresses);
            && InState(st, lost, s, Fresh) + InState(st, lost, s, MaterialChanged) == Needs(st, lost, addresses)
            && InState(st, lost, s, AlreadyScored) == Elements(addresses) - Needs(st, lost, addresses)
  {
  }

  lemma CappedConclusion(addresses: seq<string>, needs: set<string>, changed: set<string>, cap: nat,
                         chosen: seq<string>, selectedFresh: seq<string>, fillers: seq<string>)
    requires cap > 0 && chosen == Take(cap, Ranking(addresses, needs)) == selectedFresh + fillers
    requires selectedFresh == Take(cap, Within(SortDistinct(addresses), needs))
    requires changed <= needs && forall x :: x in needs ==> x in addresses
    ensures var r := Conclude(SortDistinct(addresses), changed, Some(cap), chosen, selectedFresh, fillers);
            r.Sliced? && CappedSlice(addresses, needs, cap, r.telemetry)
            && (addresses == [] ==> r.telemetry == Telemetry([], 0, 0, 0, 0, 0))
  {
    RankingIsThePreferenceOrder(addresses, needs);
    SortedSize(addresses);
    SortedSize(chosen);
    NeedsSize(addresses, needs);
    SecondPart(Within(SortDistinct(addresses), needs), Within(SortDistinct(addresses), Elements(addresses) - needs),
               cap, fillers);
  }

  lemma UncappedConclusion(addresses: seq<string>, needs: set<string>, changed: set<string>, chosen: seq<string>)
    requires chosen == Ranking(addresses, needs)
    ensures var r := Conclude(SortDistinct(addresses), changed, None, chosen, [], []);
            && (r.AssertionFailed? <==> addresses != [])
            && (addresses == [] ==> r == Sliced(Telemetry([], 0, 0, 0, 0, 0)))
  {
    RankingIsThePreferenceOrder(addresses, needs);
    SortedSize(chosen);
    if addresses != [] {
      assert addresses[0] in chosen;
    }
  }

  /** Sorting, counting, and the assertions that close the function. */
  function Conclude(sorted: seq<string>, changed: set<string>, cap: Option<int>, chosen: seq<string>,
                    selectedFresh: seq<string>, selectedAlreadyScored: seq<string>): SliceResult
  {
    var slice := SortDistinct(chosen);
    if cap.Some? && |slice| > cap.value then AssertionFailed
    else if |selectedFresh| + |selectedAlreadyScored| != |slice| then AssertionFailed
    else if exists a :: a in changed && a in slice && a in selectedAlreadyScored then AssertionFailed
    else Sliced(Telemetry(
      slice, |sorted|, |selectedFresh|, |selectedAlreadyScored|, |slice|, Max(0, |sorted| - |slice|)))
  }

  lemma SecondPart(p: seq<string>, q: seq<string>, cap: nat, rest: seq<string>)
    requires Take(cap, p + q) == Take(cap, p) + rest
    ensures forall a :: a in rest ==> a in q
  {
    forall i | 0 <= i < |rest| ensures rest[i] in q {
      assert rest[i] == Take(cap, p + q)[|Take(cap, p)| + i];
      assert Take(cap, p) == p;
      assert rest[i] == q[i];
    }
  }
}
