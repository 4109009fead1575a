/** Steps 1 and 3 of run_scan: known wallets, market fetches, trade persistence and wallet
    discovery. */
module Ingest {
  import opened Basics
  import opened Identity

  /** How an address is recognised: the sentinel test of the ingest loop, the canonical form,
      and the SQL filter of step 1. */
  datatype Rules = Rules(
    sentinel: Option<string> -> bool, canonical: Option<string> -> Option<string>, passesSql: string -> bool)

  /** The canonical form of a canonical address is itself. */
  ghost predicate Projects(rules: Rules) {
    forall v :: Stable(rules, v)
  }

  ghost predicate Stable(rules: Rules, v: Option<string>) {
    rules.canonical(v).Some? ==> rules.canonical(rules.canonical(v)) == rules.canonical(v)
  }

  function RealRules(): Rules {
    Rules(IsSentinelTraderAddress, CanonicalWalletAddress,
          (address: string) =>
            var n := SqlNormalized(address);
            n != "" && n != "unknown" && n != "anonymous" && n != "missing" && n != "0x" && n != "0x0")
  }

  lemma RealRulesProject()
    ensures Projects(RealRules())
  {
    forall v ensures Stable(RealRules(), v) {
      if CanonicalWalletAddress(v).Some? {
        CanonicalIsStable(v);
      }
    }
  }

  /** What the writer does with a trade: offer it to the table, drop it as invalid or without a
      stable id, or report an error. Only an error is told apart from a row already there. */
  datatype Write = Accepted | Rejected | Failing

  /** low is the text without surrounding blanks, in lower case. */
  ghost predicate LoweredCore(text: string, low: string, blanks: Blanks) {
    exists core :: Trimmed(text, core, blanks) && Lowered(core, low)
  }

  /** Step 1 loads a wallet exactly when its stored address, so reduced, is not empty and none of
      the five words of the filter; the zero address is not among them. */
  lemma RealFilterExactlyWhen(text: string)
    ensures RealRules().passesSql(text)
            <==> exists low :: LoweredCore(text, low, SqlTrim)
                               && low !in {"", "unknown", "anonymous", "missing", "0x", "0x0"}
  {
    SqlMatchesExactlyWhen(text, SqlNormalized(text));
    assert LoweredCore(text, SqlNormalized(text), SqlTrim);
    forall low | LoweredCore(text, low, SqlTrim) ensures low == SqlNormalized(text) {
      SqlMatchesExactlyWhen(text, low);
    }
  }

  lemma RealSentinelExactlyWhen(text: string)
    ensures RealRules().sentinel(None)
    ensures RealRules().sentinel(Some(text))
            <==> exists core, low :: Trimmed(text, core, PythonStrip) && Lowered(core, low) && (low == "" || Named(low))
  {
    SentinelExactlyWhen(text);
  }

  lemma RealCanonicalExactlyWhen(text: string, a: string)
    ensures RealRules().canonical(None) == None
    ensures RealRules().canonical(Some(text)) == Some(a) <==> CanonicalOf(text, a)
  {
    CanonicalExactlyWhen(text, a);
  }

  /** A fetched trade; identity stands for its unique (source, source_trade_id), and the flag
      says whether writing its wallet raises. */
  datatype Trade = Trade(identity: string, traderAddress: Option<string>, write: Write, walletFails: bool)

  datatype Fetch = Complete(trades: seq<Trade>) | Partial(prefix: seq<Trade>) | Failed

  /** A wallets row; canonical is the canonical_address column. */
  datatype WalletRow = WalletRow(address: string, canonical: Option<string>)

  // ---- what is persisted ------------------------------------------------------------------

  /** The trades that the script keeps: those without an error, rejected ones included. */
  function Kept(trades: seq<Trade>): seq<Trade> {
    if trades == [] then []
    else
      var last := trades[|trades| - 1];
      Kept(trades[..|trades| - 1]) + (if last.write.Failing? then [] else [last])
  }

  /** The identities that the table gets or has. */
  function AcceptedIdentities(trades: seq<Trade>): set<string> {
    if trades == [] then {}
    else
      var last := trades[|trades| - 1];
      AcceptedIdentities(trades[..|trades| - 1]) + (if last.write.Accepted? then {last.identity} else {})
  }

  function CountRejected(trades: seq<Trade>): nat {
    if trades == [] then 0
    else CountRejected(trades[..|trades| - 1]) + (if trades[|trades| - 1].write.Rejected? then 1 else 0)
  }

  function CountAccepted(trades: seq<Trade>): nat {
    if trades == [] then 0
    else CountAccepted(trades[..|trades| - 1]) + (if trades[|trades| - 1].write.Accepted? then 1 else 0)
  }

  /** The wallet that a persisted trade registers, if it registers one. */
  function Registers(rules: Rules, t: Trade): Option<string> {
    if rules.sentinel(t.traderAddress) || t.walletFails then None
    else rules.canonical(t.traderAddress)
  }

  function Entry(rules: Rules, t: Trade): set<string> {
    if Registers(rules, t).Some? then {Registers(rules, t).value} else {}
  }

  function Registered(rules: Rules, trades: seq<Trade>): set<string> {
    if trades == [] then {} else Registered(rules, trades[..|trades| - 1]) + Entry(rules, trades[|trades| - 1])
  }

  function CountSentinels(rules: Rules, trades: seq<Trade>): nat {
    if trades == [] then 0
    else CountSentinels(rules, trades[..|trades| - 1])
         + (if rules.sentinel(trades[|trades| - 1].traderAddress) then 1 else 0)
  }

  /** The trades that the discovery loop skips: also those without a canonical address. */
  predicate Skips(rules: Rules, t: Trade) {
    rules.sentinel(t.traderAddress) || rules.canonical(t.traderAddress).None?
  }

  function CountSkipped(rules: Rules, trades: seq<Trade>): nat {
    if trades == [] then 0
    else CountSkipped(rules, trades[..|trades| - 1]) + (if Skips(rules, trades[|trades| - 1]) then 1 else 0)
  }

  // ---- the wallets table and the registry -------------------------------------------------

  function Canonicals(rows: seq<WalletRow>): set<string> {
    if rows == [] then {}
    else
      var last := rows[|rows| - 1];
      Canonicals(rows[..|rows| - 1]) + (if last.canonical.Some? then {last.canonical.value} else {})
  }

  /** The addresses in Canonicals are those that have a row. */
  lemma {:induction false} CanonicalsAre(rows: seq<WalletRow>, a: string)
    ensures a in Canonicals(rows) <==> exists r :: r in rows && r.canonical == Some(a)
  {
    if rows != [] {
      var n := |rows| - 1;
      CanonicalsAre(rows[..n], a);
      assert rows == rows[..n] + [rows[n]];
    }
  }

  /** canonical_address is unique and always the canonical form of the stored address. */
  predicate WellFormed(rules: Rules, rows: seq<WalletRow>) {
    rows == []
    || (var init, last := rows[..|rows| - 1], rows[|rows| - 1];
        && WellFormed(rules, init) && last.canonical == rules.canonical(Some(last.address))
        && (last.canonical.Some? ==> last.canonical.value !in Canonicals(init)))
  }

  /** One row at most has a given canonical address. */
  lemma {:induction false} CanonicalsAreUnique(rules: Rules, rows: seq<WalletRow>, i: nat, j: nat)
    requires WellFormed(rules, rows) && i < j < |rows| && rows[i].canonical.Some?
    ensures rows[i].canonical != rows[j].canonical
  {
    var n := |rows| - 1;
    if j < n {
      CanonicalsAreUnique(rules, rows[..n], i, j);
    } else {
      assert rows[..n][i] == rows[i];
      CanonicalsAre(rows[..n], rows[i].canonical.value);
    }
  }

  // ---- the state of a run -------------------------------------------------------------------

  /** source_trades by identity, with the counters of the persistence loop. */
  datatype TradeState = TradeState(stored: set<string>, fetched: nat, inserted: nat, anonymous: nat, attributed: nat)

  /** The wallets table and the in-memory registry, with the counters of the discovery loop. */
  datatype WalletState = WalletState(rows: seq<WalletRow>, known: set<string>, discovered: nat, skipped: nat)

  datatype Scan = Scan(
    trades: TradeState, wallets: WalletState, complete: nat, partial: nat, failed: nat, kept: nat)

  function PersistOne(rules: Rules, s: TradeState, t: Trade): TradeState {
    if t.write.Failing? then s.(fetched := s.fetched + 1)
    else
      var anonymous := rules.sentinel(t.traderAddress);
      var offered := if t.write.Accepted? then {t.identity} else {};
      TradeState(s.stored + offered, s.fetched + 1, s.inserted + (if offered <= s.stored then 0 else 1),
                 s.anonymous + (if anonymous then 1 else 0), s.attributed + (if anonymous then 0 else 1))
  }

  function PersistAll(rules: Rules, s: TradeState, trades: seq<Trade>): TradeState {
    if trades == [] then s
    else PersistOne(rules, PersistAll(rules, s, trades[..|trades| - 1]), trades[|trades| - 1])
  }

  function WithRow(rows: seq<WalletRow>, a: string): seq<WalletRow> {
    if a in Canonicals(rows) then rows else rows + [WalletRow(a, Some(a))]
  }

  function DiscoverOne(rules: Rules, w: WalletState, t: Trade): WalletState {
    if Skips(rules, t) then w.(skipped := w.skipped + 1)
    else if t.walletFails then w
    else
      var a := rules.canonical(t.traderAddress).value;
      WalletState(WithRow(w.rows, a), w.known + {a}, w.discovered + (if a in w.known then 0 else 1), w.skipped)
  }

  function DiscoverAll(rules: Rules, w: WalletState, trades: seq<Trade>): WalletState {
    if trades == [] then w
    else DiscoverOne(rules, DiscoverAll(rules, w, trades[..|trades| - 1]), trades[|trades| - 1])
  }

  function IngestOne(rules: Rules, s: Scan, fetch: Fetch): Scan {
    match fetch
    case Failed => s.(failed := s.failed + 1)
    case Partial(_) => s.(partial := s.partial + 1)
    case Complete(trades) =>
      s.(complete := s.complete + 1, trades := PersistAll(rules, s.trades, trades),
         wallets := DiscoverAll(rules, s.wallets, Kept(trades)), kept := s.kept + |Kept(trades)|)
  }

  function IngestAll(rules: Rules, s: Scan, fetches: seq<Fetch>): Scan {
    if fetches == [] then s
    else IngestOne(rules, IngestAll(rules, s, fetches[..|fetches| - 1]), fetches[|fetches| - 1])
  }

  // ---- the loops ------------------------------------------------------------------------------

  class WalletTable {
    var rows: seq<WalletRow>

    constructor (initial: seq<WalletRow>)
      ensures rows == initial
    {
      rows := initial;
    }

    /** _persist_wallet: find or create by canonical address. */
    method PersistWallet(rules: Rules, address: string, raises: bool) returns (ok: bool)
      modifies this
      ensures var c := rules.canonical(Some(address));
              && (ok <==> !raises && c.Some?)
              && rows == if ok then WithRow(old(rows), c.value) else old(rows)
    {
      var canonical := rules.canonical(Some(address));
      if raises || canonical.None? {
        return false;
      }
      if canonical.value !in Canonicals(rows) {
        rows := rows + [WalletRow(canonical.value, canonical)];
      }
      return true;
    }
  }

  /** The in-memory discovery registry. */
  class WalletDiscovery {
    var known: set<string>

    constructor ()
      ensures known == {}
    {
      known := {};
    }

    /** _register. */
    method Register(rules: Rules, address: string) returns (isNew: bool)
      modifies this
      ensures var c := rules.canonical(Some(address));
              && known == old(known) + (if c.Some? then {c.value} else {})
              && (isNew <==> c.Some? && c.value !in old(known))
    {
      var canonical := rules.canonical(Some(address));
      if canonical.None? {
        return false;
      }
      isNew := canonical.value !in known;
      known := known + {canonical.value};
    }
  }

  /** source_trades, by identity. */
  class TradeTable {
    var stored: set<string>

    constructor (initial: set<string>)
      ensures stored == initial
    {
      stored := initial;
    }

    /** _persist_trade: None when the write failed, else whether a row was inserted. A rejected
        trade reads like one that is already there. */
    method PersistTrade(t: Trade) returns (inserted: Option<bool>)
      modifies this
      ensures inserted == if t.write.Failing? then None else Some(t.write.Accepted? && t.identity !in old(stored))
      ensures stored == if t.write.Accepted? then old(stored) + {t.identity} else old(stored)
    {
      if t.write.Failing? {
        return None;
      }
      if t.write.Rejected? {
        return Some(false);
      }
      inserted := Some(t.identity !in stored);
      stored := stored + {t.identity};
    }
  }

  class ScanResult {
    var walletsLoadedExisting: nat
    var walletsDiscoveredNew: nat
    var walletsTotalKnown: nat
    var marketFetchesComplete: nat
    var marketFetchesPartial: nat
    var marketFetchesFailed: nat
    var tradesFetched: nat
    var tradesPersisted: nat
    var tradesAttributed: nat
    var anonymousTrades: nat
    var anonymousTradesSkipped: nat
    var tradesTotal: nat

    constructor ()
      ensures Zero()
    {
      walletsLoadedExisting, walletsDiscoveredNew, walletsTotalKnown := 0, 0, 0;
      marketFetchesComplete, marketFetchesPartial, marketFetchesFailed := 0, 0, 0;
      tradesFetched, tradesPersisted, tradesAttributed := 0, 0, 0;
      anonymousTrades, anonymousTradesSkipped, tradesTotal := 0, 0, 0;
    }

    ghost predicate Zero()
      reads this
    {
      && walletsLoadedExisting == walletsDiscoveredNew == walletsTotalKnown == 0
      && marketFetchesComplete == marketFetchesPartial == marketFetchesFailed == 0
      && tradesFetched == tradesPersisted == tradesAttributed == 0
      && anonymousTrades == anonymousTradesSkipped == tradesTotal == 0
    }
  }

  ghost function TradeStateOf(store: TradeTable, result: ScanResult): TradeState
    reads store, result
  {
    TradeState(store.stored, result.tradesFetched, result.tradesPersisted, result.anonymousTrades, result.tradesAttributed)
  }

  ghost function WalletStateOf(table: WalletTable, discovery: WalletDiscovery, result: ScanResult): WalletState
    reads table, discovery, result
  {
    WalletState(table.rows, discovery.known, result.walletsDiscoveredNew, result.anonymousTradesSkipped)
  }

  ghost function ScanOf(store: TradeTable, table: WalletTable, discovery: WalletDiscovery, result: ScanResult): Scan
    reads store, table, discovery, result
  {
    Scan(TradeStateOf(store, result), WalletStateOf(table, discovery, result), result.marketFetchesComplete,
         result.marketFetchesPartial, result.marketFetchesFailed, result.tradesTotal)
  }

  /** Persistence of one complete fetch. */
  method PersistTrades(rules: Rules, store: TradeTable, result: ScanResult, trades: seq<Trade>)
      returns (persisted: seq<Trade>)
    modifies store, result`tradesFetched, result`tradesPersisted, result`anonymousTrades, result`tradesAttributed
    ensures persisted == Kept(trades)
    ensures TradeStateOf(store, result) == PersistAll(rules, old(TradeStateOf(store, result)), trades)
  {
    ghost var start := TradeStateOf(store, result);
    persisted := [];
    for i := 0 to |trades|
      invariant persisted == Kept(trades[..i])
      invariant TradeStateOf(store, result) == PersistAll(rules, start, trades[..i])
    {
      var t := trades[i];
      assert trades[..i + 1][..i] == trades[..i];
      result.tradesFetched := result.tradesFetched + 1;
      var inserted := store.PersistTrade(t);
      if inserted.None? {
        assert Kept(trades[..i]) + [] == Kept(trades[..i]);
        continue;
      }
      if inserted.value {
        result.tradesPersisted := result.tradesPersisted + 1;
      }
      persisted := persisted + [t];
      if rules.sentinel(t.traderAddress) {
        result.anonymousTrades := result.anonymousTrades + 1;
      } else {
        result.tradesAttributed := result.tradesAttributed + 1;
      }
    }
    assert trades[..|trades|] == trades;
  }

  /** One persisted trade: the wallet row first, the registry only after it. */
  method DiscoverWallet(rules: Rules, table: WalletTable, discovery: WalletDiscovery, result: ScanResult, t: Trade)
    requires Projects(rules)
    modifies table, discovery, result`anonymousTradesSkipped, result`walletsDiscoveredNew
    ensures WalletStateOf(table, discovery, result)
            == DiscoverOne(rules, old(WalletStateOf(table, discovery, result)), t)
  {
    if rules.sentinel(t.traderAddress) {
      result.anonymousTradesSkipped := result.anonymousTradesSkipped + 1;
      return;
    }
    var canonical := rules.canonical(t.traderAddress);
    if canonical.None? {
      result.anonymousTradesSkipped := result.anonymousTradesSkipped + 1;
      return;
    }
    assert Stable(rules, t.traderAddress);
    var ok := table.PersistWallet(rules, canonical.value, t.walletFails);
    if !ok {
      return;
    }
    var isNew := discovery.Register(rules, canonical.value);
    if isNew {
      result.walletsDiscoveredNew := result.walletsDiscoveredNew + 1;
    }
  }

  method DiscoverWallets(rules: Rules, table: WalletTable, discovery: WalletDiscovery, result: ScanResult,
                         persisted: seq<Trade>)
    requires Projects(rules)
    modifies table, discovery, result`anonymousTradesSkipped, result`walletsDiscoveredNew
    ensures WalletStateOf(table, discovery, result)
            == DiscoverAll(rules, old(WalletStateOf(table, discovery, result)), persisted)
  {
    ghost var start := WalletStateOf(table, discovery, result);
    for i := 0 to |persisted|
      invariant WalletStateOf(table, discovery, result) == DiscoverAll(rules, start, persisted[..i])
    {
      assert persisted[..i + 1][..i] == persisted[..i];
      DiscoverWallet(rules, table, discovery, result, persisted[i]);
    }
    assert persisted[..|persisted|] == persisted;
  }

  /** One market of step 3. */
  method IngestMarket(rules: Rules, store: TradeTable, table: WalletTable, discovery: WalletDiscovery,
                      result: ScanResult, fetch: Fetch)
    requires Projects(rules)
    modifies store, table, discovery, result
    ensures ScanOf(store, table, discovery, result)
            == IngestOne(rules, old(ScanOf(store, table, discovery, result)), fetch)
    ensures result.walletsLoadedExisting == old(result.walletsLoadedExisting)
  {
    match fetch {
      case Failed => result.marketFetchesFailed := result.marketFetchesFailed + 1;
      case Partial(prefix) => result.marketFetchesPartial := result.marketFetchesPartial + 1;
      case Complete(trades) =>
        result.marketFetchesComplete := result.marketFetchesComplete + 1;
        var persisted := PersistTrades(rules, store, result, trades);
        result.tradesTotal := result.tradesTotal + |persisted|;
        DiscoverWallets(rules, table, discovery, result, persisted);
        assert TradeStateOf(store, result) == PersistAll(rules, old(TradeStateOf(store, result)), trades);
        assert WalletStateOf(table, discovery, result)
            == DiscoverAll(rules, old(WalletStateOf(table, discovery, result)), Kept(trades));
    }
  }

  /** Step 3. */
  method IngestMarkets(rules: Rules, store: TradeTable, table: WalletTable, discovery: WalletDiscovery,
                       result: ScanResult, fetches: seq<Fetch>)
    requires Projects(rules)
    modifies store, table, discovery, result
    ensures ScanOf(store, table, discovery, result)
            == IngestAll(rules, old(ScanOf(store, table, discovery, result)), fetches)
    ensures result.walletsLoadedExisting == old(result.walletsLoadedExisting)
  {
    ghost var start := ScanOf(store, table, discovery, result);
    for i := 0 to |fetches|
      invariant ScanOf(store, table, discovery, result) == IngestAll(rules, start, fetches[..i])
      invariant result.walletsLoadedExisting == old(result.walletsLoadedExisting)
    {
      assert fetches[..i + 1][..i] == fetches[..i];
      IngestMarket(rules, store, table, discovery, result, fetches[i]);
    }
    assert fetches[..|fetches|] == fetches;
  }

  /** The registry entry that a stored row contributes. */
  function Loads(rules: Rules, r: WalletRow): Option<string> {
    if rules.passesSql(r.address) && !rules.sentinel(Some(r.address)) then rules.canonical(Some(r.address)) else None
  }

  function LoadedFrom(rules: Rules, rows: seq<WalletRow>): set<string> {
    if rows == [] then {}
    else
      var last := Loads(rules, rows[|rows| - 1]);
      LoadedFrom(rules, rows[..|rows| - 1]) + (if last.Some? then {last.value} else {})
  }

  /** Step 1. */
  method LoadExisting(rules: Rules, table: WalletTable, discovery: WalletDiscovery)
    requires discovery.known == {} && Projects(rules)
    modifies discovery
    ensures discovery.known == LoadedFrom(rules, table.rows)
  {
    var rows := table.rows;
    for i := 0 to |rows|
      invariant discovery.known == LoadedFrom(rules, rows[..i])
    {
      assert rows[..i + 1][..i] == rows[..i];
      var address := rows[i].address;
      if rules.passesSql(address) && !rules.sentinel(Some(address)) {
        assert Stable(rules, Some(address));
        var canonical := rules.canonical(Some(address));
        var isNew := discovery.Register(rules, if canonical.Some? then canonical.value else address);
      } else {
        assert LoadedFrom(rules, rows[..i]) + {} == LoadedFrom(rules, rows[..i]);
      }
    }
    assert rows[..|rows|] == rows;
  }

  // ---- what the loops achieve -----------------------------------------------------------------

  /** Persistence: the table gains the accepted trades, and the insert counter is its growth. */
  lemma {:induction false} PersistStores(rules: Rules, s: TradeState, trades: seq<Trade>)
    ensures var t := PersistAll(rules, s, trades);
            t.stored == s.stored + AcceptedIdentities(trades) && t.inserted - s.inserted == |t.stored| - |s.stored|
  {
    if trades != [] {
      var n := |trades| - 1;
      var before := PersistAll(rules, s, trades[..n]);
      PersistStores(rules, s, trades[..n]);
      if trades[n].write.Accepted? && trades[n].identity in before.stored {
        assert before.stored + {trades[n].identity} == before.stored;
      }
    }
  }

  /** Every fetched trade is counted, and every kept one once more, as anonymous or attributed. */
  lemma {:induction false} PersistCounts(rules: Rules, s: TradeState, trades: seq<Trade>)
    ensures var t := PersistAll(rules, s, trades);
            && t.fetched == s.fetched + |trades|
            && t.anonymous == s.anonymous + CountSentinels(rules, Kept(trades))
            && t.anonymous + t.attributed == s.anonymous + s.attributed + |Kept(trades)|
  {
    if trades != [] {
      var n := |trades| - 1;
      PersistCounts(rules, s, trades[..n]);
      if !trades[n].write.Failing? {
        assert Kept(trades)[..|Kept(trades)| - 1] == Kept(trades[..n]);
      } else {
        assert Kept(trades) == Kept(trades[..n]);
      }
    }
  }

  lemma WithRowMeans(rules: Rules, rows: seq<WalletRow>, a: string)
    requires WellFormed(rules, rows) && rules.canonical(Some(a)) == Some(a)
    ensures WellFormed(rules, WithRow(rows, a)) && Canonicals(WithRow(rows, a)) == Canonicals(rows) + {a}
  {
    assert (rows + [WalletRow(a, Some(a))])[..|rows|] == rows;
  }

  lemma TableStep(rules: Rules, w: WalletState, t: Trade)
    requires Stable(rules, t.traderAddress) && WellFormed(rules, w.rows)
    ensures var v := DiscoverOne(rules, w, t);
            WellFormed(rules, v.rows) && Canonicals(v.rows) == Canonicals(w.rows) + Entry(rules, t)
  {
    if !Skips(rules, t) && !t.walletFails {
      WithRowMeans(rules, w.rows, rules.canonical(t.traderAddress).value);
    } else {
      assert Canonicals(w.rows) + {} == Canonicals(w.rows);
    }
  }

  lemma RegistryStep(rules: Rules, w: WalletState, t: Trade)
    ensures var v := DiscoverOne(rules, w, t);
            && v.known == w.known + Entry(rules, t) && v.discovered - w.discovered == |v.known| - |w.known|
            && v.skipped == w.skipped + (if Skips(rules, t) then 1 else 0)
  {
    if !Skips(rules, t) && !t.walletFails {
      var a := rules.canonical(t.traderAddress).value;
      if a in w.known {
        assert w.known + {a} == w.known;
      }
    } else {
      assert w.known + {} == w.known;
    }
  }

  /** Discovery keeps one row per canonical address and adds a row for every wallet it registers. */
  lemma {:induction false} TableMeans(rules: Rules, w: WalletState, trades: seq<Trade>)
    requires Projects(rules) && WellFormed(rules, w.rows)
    ensures var v := DiscoverAll(rules, w, trades);
            WellFormed(rules, v.rows) && Canonicals(v.rows) == Canonicals(w.rows) + Registered(rules, trades)
  {
    if trades != [] {
      var n := |trades| - 1;
      TableMeans(rules, w, trades[..n]);
      assert Stable(rules, trades[n].traderAddress);
      TableStep(rules, DiscoverAll(rules, w, trades[..n]), trades[n]);
    }
  }

  /** The registry gains the same wallets, and the new-wallet counter is its growth. */
  lemma {:induction false} RegistryMeans(rules: Rules, w: WalletState, trades: seq<Trade>)
    ensures var v := DiscoverAll(rules, w, trades);
            && v.known == w.known + Registered(rules, trades)
            && v.discovered - w.discovered == |v.known| - |w.known|
            && v.skipped == w.skipped + CountSkipped(rules, trades)
  {
    if trades != [] {
      var n := |trades| - 1;
      RegistryMeans(rules, w, trades[..n]);
      RegistryStep(rules, DiscoverAll(rules, w, trades[..n]), trades[n]);
    }
  }

  lemma {:induction false} PersistAllConcat(rules: Rules, s: TradeState, a: seq<Trade>, b: seq<Trade>)
    ensures PersistAll(rules, s, a + b) == PersistAll(rules, PersistAll(rules, s, a), b)
  {
    if b == [] {
      assert a + b == a;
    } else {
      var n := |b| - 1;
      PersistAllConcat(rules, s, a, b[..n]);
      assert (a + b)[..|a + b| - 1] == a + b[..n];
    }
  }

  lemma {:induction false} DiscoverAllConcat(rules: Rules, w: WalletState, a: seq<Trade>, b: seq<Trade>)
    ensures DiscoverAll(rules, w, a + b) == DiscoverAll(rules, DiscoverAll(rules, w, a), b)
  {
    if b == [] {
      assert a + b == a;
    } else {
      var n := |b| - 1;
      DiscoverAllConcat(rules, w, a, b[..n]);
      assert (a + b)[..|a + b| - 1] == a + b[..n];
    }
  }

  function TradesOf(fetch: Fetch): seq<Trade> {
    if fetch.Complete? then fetch.trades else []
  }

  /** The trades of all complete fetches. */
  function Fetched(fetches: seq<Fetch>): seq<Trade> {
    if fetches == [] then [] else Fetched(fetches[..|fetches| - 1]) + TradesOf(fetches[|fetches| - 1])
  }

  /** Those that the script keeps. */
  function Persisted(fetches: seq<Fetch>): seq<Trade> {
    Kept(Fetched(fetches))
  }

  lemma {:induction false} KeptConcat(a: seq<Trade>, b: seq<Trade>)
    ensures Kept(a + b) == Kept(a) + Kept(b)
  {
    if b == [] {
      assert a + b == a;
    } else {
      var n := |b| - 1;
      KeptConcat(a, b[..n]);
      assert (a + b)[..|a + b| - 1] == a + b[..n];
    }
  }

  function CountComplete(fetches: seq<Fetch>): nat {
    if fetches == [] then 0
    else CountComplete(fetches[..|fetches| - 1]) + (if fetches[|fetches| - 1].Complete? then 1 else 0)
  }

  /** Partial and failed fetches contribute nothing but their own counter. */
  lemma {:induction false} OnlyCompleteFetchesCount(rules: Rules, s: Scan, fetches: seq<Fetch>)
    ensures var t := IngestAll(rules, s, fetches);
            && t.trades == PersistAll(rules, s.trades, Fetched(fetches))
            && t.wallets == DiscoverAll(rules, s.wallets, Persisted(fetches))
            && t.kept == s.kept + |Persisted(fetches)| && t.complete == s.complete + CountComplete(fetches)
            && t.complete + t.partial + t.failed == s.complete + s.partial + s.failed + |fetches|
            && t.partial == s.partial + |Partials(fetches)|
  {
    if fetches != [] {
      var n := |fetches| - 1;
      var done, more := Fetched(fetches[..n]), TradesOf(fetches[n]);
      OnlyCompleteFetchesCount(rules, s, fetches[..n]);
      KeptConcat(done, more);
      PersistAllConcat(rules, s.trades, done, more);
      DiscoverAllConcat(rules, s.wallets, Kept(done), Kept(more));
      PartialSnoc(fetches, n);
    }
  }

  ghost function Partials(fetches: seq<Fetch>): set<nat> {
    set i: nat | i < |fetches| && fetches[i].Partial?
  }

  lemma PartialSnoc(fetches: seq<Fetch>, n: nat)
    requires |fetches| == n + 1
    ensures |Partials(fetches)| == |Partials(fetches[..n])| + (if fetches[n].Partial? then 1 else 0)
  {
    var last := if n in Partials(fetches) then {n} else {};
    assert Partials(fetches) == Partials(fetches[..n]) + last;
  }

  ghost function Completes(fetches: seq<Fetch>): set<nat> {
    set i: nat | i < |fetches| && fetches[i].Complete?
  }

  lemma CompleteSnoc(fetches: seq<Fetch>, n: nat)
    requires |fetches| == n + 1
    ensures |Completes(fetches)| == |Completes(fetches[..n])| + (if fetches[n].Complete? then 1 else 0)
  {
    var last := if n in Completes(fetches) then {n} else {};
    assert Completes(fetches) == Completes(fetches[..n]) + last;
  }

  lemma {:induction false} CompleteAre(fetches: seq<Fetch>)
    ensures CountComplete(fetches) == |Completes(fetches)|
  {
    if fetches != [] {
      CompleteAre(fetches[..|fetches| - 1]);
      CompleteSnoc(fetches, |fetches| - 1);
    }
  }

  /** Every loaded address is the canonical address of a row. */
  lemma {:induction false} LoadedAreCanonicals(rules: Rules, rows: seq<WalletRow>)
    requires WellFormed(rules, rows)
    ensures LoadedFrom(rules, rows) <= Canonicals(rows)
  {
    if rows != [] {
      LoadedAreCanonicals(rules, rows[..|rows| - 1]);
    }
  }

  /** What steps 1 and 3 leave, from a table of these wallets and these stored trades. */
  ghost predicate Ingested(rules: Rules, rows: seq<WalletRow>, stored: set<string>, fetches: seq<Fetch>, t: Scan) {
    var kept := Persisted(fetches);
    // Every market is counted once, and only trades of complete fetches are stored.
    && t.complete == CountComplete(fetches) && t.complete + t.partial + t.failed == |fetches|
    && t.partial == |Partials(fetches)|
    && t.trades.stored == stored + AcceptedIdentities(Fetched(fetches)) && t.trades.inserted == |t.trades.stored| - |stored|
    && t.trades.fetched == |Fetched(fetches)|
    // Every kept trade, stored or rejected, is counted once, as attributed or anonymous.
    && t.trades.anonymous == CountSentinels(rules, kept) && t.wallets.skipped == CountSkipped(rules, kept)
    && t.trades.attributed + t.trades.anonymous == t.kept == |kept|
    && |kept| == CountAccepted(Fetched(fetches)) + CountRejected(Fetched(fetches))
    // Every wallet of the registry has a row, and the counters split it into old and new.
    && t.wallets.known == LoadedFrom(rules, rows) + Registered(rules, kept)
    && Canonicals(t.wallets.rows) == Canonicals(rows) + Registered(rules, kept)
    && WellFormed(rules, t.wallets.rows) && t.wallets.known <= Canonicals(t.wallets.rows)
    && |t.wallets.known| == |LoadedFrom(rules, rows)| + t.wallets.discovered
  }

  // ---- the same in terms of fetches, trades and rows --------------------------------------------

  /** The trade registers this wallet: it passes the sentinel test, its address has this canonical
      form, and its wallet could be stored. */
  predicate Names(rules: Rules, t: Trade, a: string) {
    !rules.sentinel(t.traderAddress) && rules.canonical(t.traderAddress) == Some(a) && !t.walletFails
  }

  /** Step 1 loads this address from the row: the row passes the SQL filter and the sentinel test,
      and the address is the canonical form of its text. */
  predicate Gives(rules: Rules, r: WalletRow, a: string) {
    rules.passesSql(r.address) && !rules.sentinel(Some(r.address)) && rules.canonical(Some(r.address)) == Some(a)
  }

  lemma {:induction false} RegisteredAre(rules: Rules, trades: seq<Trade>, a: string)
    ensures a in Registered(rules, trades) <==> exists t :: t in trades && Names(rules, t, a)
  {
    if trades != [] {
      var n := |trades| - 1;
      RegisteredAre(rules, trades[..n], a);
      assert trades == trades[..n] + [trades[n]];
      assert a in Entry(rules, trades[n]) <==> Names(rules, trades[n], a);
      assert trades[n] in trades;
    }
  }

  lemma {:induction false} AcceptedAre(trades: seq<Trade>, id: string)
    ensures id in AcceptedIdentities(trades) <==> exists t :: t in trades && t.write == Accepted && t.identity == id
  {
    if trades != [] {
      var n := |trades| - 1;
      AcceptedAre(trades[..n], id);
      assert trades == trades[..n] + [trades[n]];
    }
  }

  lemma {:induction false} LoadedAre(rules: Rules, rows: seq<WalletRow>, a: string)
    ensures a in LoadedFrom(rules, rows) <==> exists r :: r in rows && Gives(rules, r, a)
  {
    if rows != [] {
      var n := |rows| - 1;
      LoadedAre(rules, rows[..n], a);
      assert rows == rows[..n] + [rows[n]];
      assert Loads(rules, rows[n]) == Some(a) <==> Gives(rules, rows[n], a);
      assert rows[n] in rows;
    }
  }

  ghost function WithSentinel(rules: Rules, trades: seq<Trade>): set<nat> {
    set i: nat | i < |trades| && rules.sentinel(trades[i].traderAddress)
  }

  lemma SentinelSnoc(rules: Rules, trades: seq<Trade>, n: nat)
    requires |trades| == n + 1
    ensures |WithSentinel(rules, trades)|
            == |WithSentinel(rules, trades[..n])| + (if rules.sentinel(trades[n].traderAddress) then 1 else 0)
  {
    var last := if n in WithSentinel(rules, trades) then {n} else {};
    assert WithSentinel(rules, trades) == WithSentinel(rules, trades[..n]) + last;
  }

  lemma {:induction false} SentinelsAre(rules: Rules, trades: seq<Trade>)
    ensures CountSentinels(rules, trades) == |WithSentinel(rules, trades)|
  {
    if trades != [] {
      SentinelsAre(rules, trades[..|trades| - 1]);
      SentinelSnoc(rules, trades, |trades| - 1);
    }
  }

  /** The discovery loop gets past the two address tests. */
  predicate Passes(rules: Rules, t: Trade) {
    !rules.sentinel(t.traderAddress) && rules.canonical(t.traderAddress) != None
  }

  ghost function Stopped(rules: Rules, trades: seq<Trade>): set<nat> {
    set i: nat | i < |trades| && !Passes(rules, trades[i])
  }

  lemma StoppedSnoc(rules: Rules, trades: seq<Trade>, n: nat)
    requires |trades| == n + 1
    ensures |Stopped(rules, trades)| == |Stopped(rules, trades[..n])| + (if Passes(rules, trades[n]) then 0 else 1)
  {
    var last := if n in Stopped(rules, trades) then {n} else {};
    assert Stopped(rules, trades) == Stopped(rules, trades[..n]) + last;
  }

  lemma {:induction false} SkippedAre(rules: Rules, trades: seq<Trade>)
    ensures CountSkipped(rules, trades) == |Stopped(rules, trades)|
  {
    if trades != [] {
      SkippedAre(rules, trades[..|trades| - 1]);
      StoppedSnoc(rules, trades, |trades| - 1);
    }
  }

  ghost function WithWrite(trades: seq<Trade>, write: Write): set<nat> {
    set i: nat | i < |trades| && trades[i].write == write
  }

  lemma WriteSnoc(trades: seq<Trade>, n: nat, write: Write)
    requires |trades| == n + 1
    ensures |WithWrite(trades, write)| == |WithWrite(trades[..n], write)| + (if trades[n].write == write then 1 else 0)
  {
    var last := if n in WithWrite(trades, write) then {n} else {};
    assert WithWrite(trades, write) == WithWrite(trades[..n], write) + last;
  }

  /** Accepted and rejected trades, counted. */
  lemma {:induction false} WritesAreCounted(trades: seq<Trade>)
    ensures CountAccepted(trades) == |WithWrite(trades, Accepted)| && CountRejected(trades) == |WithWrite(trades, Rejected)|
  {
    if trades != [] {
      WritesAreCounted(trades[..|trades| - 1]);
      WriteSnoc(trades, |trades| - 1, Accepted);
      WriteSnoc(trades, |trades| - 1, Rejected);
    }
  }

  /** all holds, in order, the trades of the complete fetches, and kept those of them without an
      error. */
  ghost predicate Collected(fetches: seq<Fetch>, all: seq<Trade>, kept: seq<Trade>) {
    if fetches == [] then all == kept == []
    else
      var n := |fetches| - 1;
      exists all0, kept0 :: Collected(fetches[..n], all0, kept0) && Extends(fetches[n], all0, kept0, all, kept)
  }

  ghost predicate Extends(f: Fetch, all0: seq<Trade>, kept0: seq<Trade>, all: seq<Trade>, kept: seq<Trade>) {
    if !f.Complete? then all == all0 && kept == kept0
    else all == all0 + f.trades && exists more :: kept == kept0 + more && WithoutErrors(f.trades, more)
  }

  /** more are the trades whose write reports no error, in order. */
  ghost predicate WithoutErrors(trades: seq<Trade>, more: seq<Trade>) {
    if trades == [] then more == []
    else
      var n := |trades| - 1;
      if trades[n].write == Failing then WithoutErrors(trades[..n], more)
      else more != [] && more[|more| - 1] == trades[n] && WithoutErrors(trades[..n], more[..|more| - 1])
  }

  lemma {:induction false} KeptHaveNoErrors(trades: seq<Trade>)
    ensures WithoutErrors(trades, Kept(trades))
  {
    if trades != [] {
      var n := |trades| - 1;
      KeptHaveNoErrors(trades[..n]);
      if trades[n].write != Failing {
        assert Kept(trades)[..|Kept(trades)| - 1] == Kept(trades[..n]);
      } else {
        assert Kept(trades) == Kept(trades[..n]);
      }
    }
  }

  lemma {:induction false} AllCollected(fetches: seq<Fetch>)
    ensures Collected(fetches, Fetched(fetches), Persisted(fetches))
  {
    if fetches != [] {
      var n := |fetches| - 1;
      AllCollected(fetches[..n]);
      KeptConcat(Fetched(fetches[..n]), TradesOf(fetches[n]));
      if fetches[n].Complete? {
        KeptHaveNoErrors(fetches[n].trades);
      }
      assert Extends(fetches[n], Fetched(fetches[..n]), Persisted(fetches[..n]), Fetched(fetches), Persisted(fetches));
    }
  }

  /** What steps 1 and 3 make of the trades fetched and kept: which are stored, and what is counted. */
  ghost predicate LeavesTrades(rules: Rules, stored: set<string>, fetches: seq<Fetch>, all: seq<Trade>, kept: seq<Trade>,
                               t: Scan) {
    && t.complete == |Completes(fetches)|
    && t.partial == |Partials(fetches)|
    && t.complete + t.partial + t.failed == |fetches|
    && t.trades.fetched == |all| && t.kept == |kept|
    && (forall id :: id in t.trades.stored <==>
          id in stored || exists x :: x in all && x.write == Accepted && x.identity == id)
    && t.trades.inserted == |t.trades.stored| - |stored|
    && t.trades.anonymous == |WithSentinel(rules, kept)|
    && t.trades.attributed == |kept| - t.trades.anonymous
    && t.wallets.skipped == |Stopped(rules, kept)|
  }

  ghost predicate Loaded(rules: Rules, rows: seq<WalletRow>, a: string) {
    exists r :: r in rows && Gives(rules, r, a)
  }

  ghost predicate Discovered(rules: Rules, kept: seq<Trade>, a: string) {
    exists x :: x in kept && Names(rules, x, a)
  }

  ghost predicate HasRow(rows: seq<WalletRow>, a: string) {
    exists r :: r in rows && r.canonical == Some(a)
  }

  /** And of the wallets: which are known and which have rows. */
  ghost predicate LeavesWallets(rules: Rules, rows: seq<WalletRow>, kept: seq<Trade>, w: WalletState) {
    && (forall a :: a in w.known <==> Loaded(rules, rows, a) || Discovered(rules, kept, a))
    && (forall a :: HasRow(w.rows, a) <==> HasRow(rows, a) || Discovered(rules, kept, a))
    && w.discovered == |w.known| - |set a | a in w.known && Loaded(rules, rows, a)|
  }

  lemma TradesLeft(rules: Rules, rows: seq<WalletRow>, stored: set<string>, fetches: seq<Fetch>, t: Scan)
    requires Ingested(rules, rows, stored, fetches, t)
    ensures LeavesTrades(rules, stored, fetches, Fetched(fetches), Persisted(fetches), t)
  {
    var all, kept := Fetched(fetches), Persisted(fetches);
    CompleteAre(fetches);
    SentinelsAre(rules, kept);
    SkippedAre(rules, kept);
    forall id ensures id in AcceptedIdentities(all) <==> exists x :: x in all && x.write == Accepted && x.identity == id {
      AcceptedAre(all, id);
    }
  }

  lemma WalletsLeft(rules: Rules, rows: seq<WalletRow>, kept: seq<Trade>, w: WalletState)
    requires w.known == LoadedFrom(rules, rows) + Registered(rules, kept)
    requires Canonicals(w.rows) == Canonicals(rows) + Registered(rules, kept)
    requires |w.known| == |LoadedFrom(rules, rows)| + w.discovered
    ensures LeavesWallets(rules, rows, kept, w)
  {
    forall a
      ensures a in Registered(rules, kept) <==> Discovered(rules, kept, a)
      ensures a in LoadedFrom(rules, rows) <==> Loaded(rules, rows, a)
      ensures a in Canonicals(rows) <==> HasRow(rows, a)
      ensures a in Canonicals(w.rows) <==> HasRow(w.rows, a)
    {
      RegisteredAre(rules, kept, a);
      LoadedAre(rules, rows, a);
      CanonicalsAre(rows, a);
      CanonicalsAre(w.rows, a);
    }
    var loaded := set a | a in w.known && Loaded(rules, rows, a);
    assert loaded == LoadedFrom(rules, rows);
  }

  /** Both, over the trades that the fetches give. */
  ghost predicate Leaves(rules: Rules, rows: seq<WalletRow>, stored: set<string>, fetches: seq<Fetch>, t: Scan) {
    exists all, kept :: Collected(fetches, all, kept) && LeavesTrades(rules, stored, fetches, all, kept, t)
                        && LeavesWallets(rules, rows, kept, t.wallets)
  }

  lemma IngestedLeaves(rules: Rules, rows: seq<WalletRow>, stored: set<string>, fetches: seq<Fetch>, t: Scan)
    requires Ingested(rules, rows, stored, fetches, t)
    ensures Leaves(rules, rows, stored, fetches, t)
  {
    AllCollected(fetches);
    TradesLeft(rules, rows, stored, fetches, t);
    WalletsLeft(rules, rows, Persisted(fetches), t.wallets);
  }

  lemma IngestMeans(rules: Rules, rows: seq<WalletRow>, stored: set<string>, fetches: seq<Fetch>)
    requires Projects(rules) && WellFormed(rules, rows)
    ensures var start := Scan(TradeState(stored, 0, 0, 0, 0), WalletState(rows, LoadedFrom(rules, rows), 0, 0), 0, 0, 0, 0);
            Ingested(rules, rows, stored, fetches, IngestAll(rules, start, fetches))
  {
    var start := Scan(TradeState(stored, 0, 0, 0, 0), WalletState(rows, LoadedFrom(rules, rows), 0, 0), 0, 0, 0, 0);
    OnlyCompleteFetchesCount(rules, start, fetches);
    PersistStores(rules, start.trades, Fetched(fetches));
    PersistCounts(rules, start.trades, Fetched(fetches));
    TableMeans(rules, start.wallets, Persisted(fetches));
    RegistryMeans(rules, start.wallets, Persisted(fetches));
    KeptAreAcceptedOrRejected(Fetched(fetches));
    LoadedAreCanonicals(rules, rows);
  }

  lemma {:induction false} KeptAreAcceptedOrRejected(trades: seq<Trade>)
    ensures |Kept(trades)| == CountAccepted(trades) + CountRejected(trades)
    ensures CountRejected(trades) == 0 <==> forall t :: t in trades ==> !t.write.Rejected?
  {
    if trades != [] {
      var n := |trades| - 1;
      KeptAreAcceptedOrRejected(trades[..n]);
      assert trades == trades[..n] + [trades[n]];
    }
  }

  /** The trade counters count stored trades exactly when the writer rejected none. */
  lemma CountersCountStoredExactlyWhen(rules: Rules, s: TradeState, trades: seq<Trade>)
    ensures var t := PersistAll(rules, s, trades);
            (t.anonymous + t.attributed) - (s.anonymous + s.attributed) == CountAccepted(trades)
            <==> forall x :: x in trades ==> !x.write.Rejected?
  {
    PersistCounts(rules, s, trades);
    KeptAreAcceptedOrRejected(trades);
  }

  /** A rejected trade discovers its wallet all the same: the wallet gets a row and enters the
      registry while nothing of its history is stored. The script's own rule is never to score
      a wallet whose trade could not be written. */
  lemma RejectedTradeDiscovers(rules: Rules, t: Trade)
    requires t.write.Rejected? && !t.walletFails && !Skips(rules, t)
    ensures var a := rules.canonical(t.traderAddress).value;
            var start := Scan(TradeState({}, 0, 0, 0, 0), WalletState([], {}, 0, 0), 0, 0, 0, 0);
            var end := IngestAll(rules, start, [Complete([t])]);
            && end.trades == TradeState({}, 1, 0, 0, 1)
            && end.wallets == WalletState([WalletRow(a, Some(a))], {a}, 1, 0)
  {
    var trades, wallets := TradeState({}, 0, 0, 0, 0), WalletState([], {}, 0, 0);
    assert [Complete([t])][..0] == [];
    OneTrade(rules, trades, wallets, t);
    assert IngestAll(rules, Scan(trades, wallets, 0, 0, 0, 0), [Complete([t])])
        == IngestOne(rules, Scan(trades, wallets, 0, 0, 0, 0), Complete([t]));
  }

  lemma OneTrade(rules: Rules, s: TradeState, w: WalletState, t: Trade)
    ensures PersistAll(rules, s, [t]) == PersistOne(rules, s, t)
    ensures DiscoverAll(rules, w, [t]) == DiscoverOne(rules, w, t)
    ensures Kept([t]) == if t.write.Failing? then [] else [t]
  {
    assert [t][..0] == [];
  }

  /** Steps 1 and 3, by their loops. */
  method Execute(rules: Rules, store: TradeTable, table: WalletTable, discovery: WalletDiscovery,
                 result: ScanResult, fetches: seq<Fetch>)
    requires Projects(rules) && WellFormed(rules, table.rows) && result.Zero() && discovery.known == {}
    modifies store, table, discovery, result
    ensures Ingested(rules, old(table.rows), old(store.stored), fetches, ScanOf(store, table, discovery, result))
    ensures result.walletsTotalKnown == |discovery.known|
            == result.walletsLoadedExisting + result.walletsDiscoveredNew
    ensures result.walletsLoadedExisting == |LoadedFrom(rules, old(table.rows))|
  {
    LoadExisting(rules, table, discovery);
    result.walletsLoadedExisting := |discovery.known|;
    IngestMarkets(rules, store, table, discovery, result, fetches);
    IngestMeans(rules, old(table.rows), old(store.stored), fetches);
    result.walletsTotalKnown := |discovery.known|;
  }

  /** Steps 1 and 3. */
  method Ingest(rules: Rules, store: TradeTable, table: WalletTable, discovery: WalletDiscovery,
                result: ScanResult, fetches: seq<Fetch>)
    requires Projects(rules) && WellFormed(rules, table.rows) && result.Zero() && discovery.known == {}
    modifies store, table, discovery, result
    ensures Ingested(rules, old(table.rows), old(store.stored), fetches, ScanOf(store, table, discovery, result))
    ensures Leaves(rules, old(table.rows), old(store.stored), fetches, ScanOf(store, table, discovery, result))
    ensures result.walletsTotalKnown == |discovery.known|
            == result.walletsLoadedExisting + result.walletsDiscoveredNew
    ensures result.walletsLoadedExisting == |LoadedFrom(rules, old(table.rows))|
  {
    Execute(rules, store, table, discovery, result, fetches);
    IngestedLeaves(rules, old(table.rows), old(store.stored), fetches, ScanOf(store, table, discovery, result));
  }

  lemma {:induction false} FetchedAre(fetches: seq<Fetch>, t: Trade)
    ensures t in Fetched(fetches) <==> exists f :: f in fetches && f.Complete? && t in f.trades
  {
    if fetches != [] {
      var n := |fetches| - 1;
      FetchedAre(fetches[..n], t);
      assert fetches == fetches[..n] + [fetches[n]];
    }
  }

  lemma {:induction false} KeptAre(trades: seq<Trade>, t: Trade)
    ensures t in Kept(trades) <==> t in trades && !t.write.Failing?
  {
    if trades != [] {
      var n := |trades| - 1;
      assert trades == trades[..n] + [trades[n]];
      KeptAre(trades[..n], t);
    }
  }

  /** The trades that reach discovery are exactly those of complete fetches whose write did not
      fail. */
  lemma PersistedComeFromComplete(fetches: seq<Fetch>, t: Trade)
    ensures t in Persisted(fetches)
            <==> !t.write.Failing? && exists f :: f in fetches && f.Complete? && t in f.trades
  {
    KeptAre(Fetched(fetches), t);
    FetchedAre(fetches, t);
  }

  /** The two anonymous counters agree exactly when every persisted trade that passes the
      sentinel test has a canonical address. */
  lemma {:induction false} AnonymousCountersAgreeExactlyWhen(rules: Rules, trades: seq<Trade>)
    ensures CountSkipped(rules, trades) >= CountSentinels(rules, trades)
    ensures CountSkipped(rules, trades) == CountSentinels(rules, trades)
            <==> forall t :: t in trades && !rules.sentinel(t.traderAddress) ==> rules.canonical(t.traderAddress).Some?
  {
    if trades != [] {
      var n := |trades| - 1;
      AnonymousCountersAgreeExactlyWhen(rules, trades[..n]);
      assert trades == trades[..n] + [trades[n]];
    }
  }

  /** They need not: text that is one NUL character passes the sentinel test and has no
      canonical address. */
  lemma NulIsNoSentinel()
    ensures !RealRules().sentinel(Some("\0")) && RealRules().canonical(Some("\0")).None?
  {
    var nul := "\0";
    assert Leading(nul, PythonStrip) == 0 && nul[0..] == nul && Trailing(nul, PythonStrip) == 0;
    assert Strip(nul, PythonStrip) == nul && Lower(nul) == nul;
    assert nul[1..] == "" && Leading(nul[1..], CanonicalStrip) == 0;
    assert Leading(nul, CanonicalStrip) == 1;
    assert Strip(nul, CanonicalStrip) == "";
  }
}
