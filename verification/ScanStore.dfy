/** The tables the bounded wallet scorer reads and writes, and what its queries mean. */
module ScanStore {
  import opened Basics
  import opened Identity
  import opened Canonical

  const V1 := "1"

  /** A source_trades row. Instants stand for the UTC timestamp texts; module Timestamps
      shows when comparing the texts is comparing the instants. */
  datatype Trade = Trade(
    trader: Option<string>, at: int, side: string, price: real, market: string, isSample: bool)

  /** A wallet_score_decisions row: its unique columns and source_data_timestamp. */
  datatype Decision = Decision(wallet: string, version: string, key: string, stamp: int)

  datatype Store = Store(wallets: map<string, string>, trades: seq<Trade>, decisions: seq<Decision>)

  predicate IsV1(r: Decision, wallet: string) {
    r.wallet == wallet && r.version == V1
  }

  ghost predicate WalletsValid(wallets: map<string, string>) {
    && (forall a :: a in wallets ==> '|' !in wallets[a])
    && (forall a, b :: a in wallets && b in wallets && wallets[a] == wallets[b] ==> a == b)
  }

  predicate SameIdentity(r: Decision, q: Decision) {
    r.wallet == q.wallet && r.version == q.version && r.key == q.key
  }

  /** wallets.id is a primary key over UUID texts; the decision table has its UNIQUE key. */
  ghost predicate Valid(st: Store) {
    && WalletsValid(st.wallets)
    && forall i, j :: 0 <= i < j < |st.decisions| ==> !SameIdentity(st.decisions[i], st.decisions[j])
  }

  predicate Tabled(rows: seq<Decision>, wallet: string, key: string) {
    exists i :: 0 <= i < |rows| && IsV1(rows[i], wallet) && rows[i].key == key
  }

  predicate HasPrior(rows: seq<Decision>, wallet: string) {
    exists i :: 0 <= i < |rows| && IsV1(rows[i], wallet)
  }

  /** The trade is stamped after every V1 decision of the wallet. */
  predicate NewerThanRows(t: Trade, rows: seq<Decision>, wallet: string) {
    forall i :: 0 <= i < |rows| && IsV1(rows[i], wallet) ==> rows[i].stamp < t.at
  }

  /** Some trade recorded under exactly this address is newer than every V1 decision. */
  predicate Outdated(st: Store, address: string)
    requires address in st.wallets
  {
    exists i :: 0 <= i < |st.trades| && st.trades[i].trader == Some(address)
                && NewerThanRows(st.trades[i], st.decisions, st.wallets[address])
  }

  datatype WalletState = Fresh | MaterialChanged | AlreadyScored

  function StateOf(st: Store, address: string): WalletState {
    if address !in st.wallets || !HasPrior(st.decisions, st.wallets[address]) then Fresh
    else if Outdated(st, address) then MaterialChanged
    else AlreadyScored
  }

  // ---- wallet metrics ----------------------------------------------------------------

  predicate Owns(address: string, t: Trade) {
    t.trader.Some? && SqlNormalized(t.trader.value) == address
  }

  /** The rows of the metrics query for one canonical address. */
  function OwnTrades(trades: seq<Trade>, address: string): (r: seq<Trade>)
    ensures |r| <= |trades|
    ensures forall t :: t in r <==> t in trades && Owns(address, t)
  {
    if trades == [] then []
    else
      var n := |trades| - 1;
      var rest := OwnTrades(trades[..n], address);
      assert trades == trades[..n] + [trades[n]];
      if Owns(address, trades[n]) then rest + [trades[n]] else rest
  }

  /** A row is a wallet's own exactly when its trader, without surrounding blanks and in lower
      case, is the address. */
  lemma OwnsExactlyWhen(address: string, t: Trade)
    ensures Owns(address, t)
            <==> t.trader.Some? && exists core :: Trimmed(t.trader.value, core, SqlTrim) && Lowered(core, address)
    ensures OwnTrades([t], address) == if Owns(address, t) then [t] else []
  {
    if t.trader.Some? {
      SqlMatchesExactlyWhen(t.trader.value, address);
    }
    assert [t][..0] == [];
  }

  /** Rows are only ever appended, so an earlier query result is a prefix of a later one. */
  lemma {:induction false} OwnTradesGrow(trades: seq<Trade>, extra: seq<Trade>, address: string)
    ensures OwnTrades(trades + extra, address) == OwnTrades(trades, address) + OwnTrades(extra, address)
  {
    if extra == [] {
      assert trades + extra == trades;
    } else {
      var n := |extra| - 1;
      var last := if Owns(address, extra[n]) then [extra[n]] else [];
      calc {
        OwnTrades(trades + extra, address);
        { assert (trades + extra)[..|trades + extra| - 1] == trades + extra[..n]; }
        OwnTrades(trades + extra[..n], address) + last;
        { OwnTradesGrow(trades, extra[..n], address); }
        (OwnTrades(trades, address) + OwnTrades(extra[..n], address)) + last;
        { Associates(OwnTrades(trades, address), OwnTrades(extra[..n], address), last); }
        OwnTrades(trades, address) + (OwnTrades(extra[..n], address) + last);
        OwnTrades(trades, address) + OwnTrades(extra, address);
      }
    }
  }

  /** The win test of the metrics loop, which compares with lower-case side names. */
  predicate IsWin(t: Trade) {
    (t.side == "buy" && t.price < 0.5) || (t.side == "sell" && t.price > 0.5)
  }

  function Wins(own: seq<Trade>): (n: nat)
    ensures n <= |own|
  {
    if own == [] then 0 else Wins(own[..|own| - 1]) + (if IsWin(own[|own| - 1]) then 1 else 0)
  }

  function Latest(own: seq<Trade>): int
    requires own != []
  {
    var n := |own| - 1;
    if n == 0 then own[0].at else Max(Latest(own[..n]), own[n].at)
  }

  function Earliest(own: seq<Trade>): int
    requires own != []
  {
    var n := |own| - 1;
    if n == 0 then own[0].at else Min(Earliest(own[..n]), own[n].at)
  }

  lemma {:induction false} LatestBounds(own: seq<Trade>)
    requires own != []
    ensures (forall t :: t in own ==> t.at <= Latest(own)) && exists t :: t in own && t.at == Latest(own)
  {
    var n := |own| - 1;
    assert own == own[..n] + [own[n]] && own[n] in own;
    if n > 0 {
      LatestBounds(own[..n]);
    }
  }

  lemma {:induction false} EarliestBounds(own: seq<Trade>)
    requires own != []
    ensures (forall t :: t in own ==> Earliest(own) <= t.at) && exists t :: t in own && t.at == Earliest(own)
  {
    var n := |own| - 1;
    assert own == own[..n] + [own[n]] && own[n] in own;
    if n > 0 {
      EarliestBounds(own[..n]);
    }
  }

  /** Latest and Earliest are the greatest and the least timestamp of the rows. */
  lemma ExtremesBound(own: seq<Trade>)
    requires own != []
    ensures forall t :: t in own ==> Earliest(own) <= t.at <= Latest(own)
    ensures exists t :: t in own && t.at == Latest(own)
    ensures exists t :: t in own && t.at == Earliest(own)
  {
    LatestBounds(own);
    EarliestBounds(own);
  }

  function Markets(own: seq<Trade>): set<string> {
    set t | t in own :: t.market
  }

  predicate AllSample(own: seq<Trade>) {
    forall t :: t in own ==> t.isSample
  }

  function WinRate(own: seq<Trade>): real
    requires own != []
  {
    Wins(own) as real / |own| as real
  }

  function Record(sharpe: Value, winRate: Value, count: Value, latest: Value, first: Value,
                  markets: Value, sample: Value): Metrics
  {
    map["sharpe_ratio" := sharpe, "win_rate" := winRate, "trade_count" := count,
        "latest_trade_ts" := latest, "first_trade_ts" := first,
        "markets_traded" := markets, "is_sample" := sample]
  }

  /** The dictionary _compute_wallet_metrics returns for a wallet with these trades. */
  function MetricsOf(env: Env, own: seq<Trade>): (m: Metrics)
    requires own != []
  {
    Record(
      if |own| >= 5 then VFloat(env.estimate(Wins(own), |own|)) else VNone,
      VFloat(WinRate(own)),
      VInt(|own|),
      VDate(Latest(own)),
      VDate(Earliest(own)),
      VInt(|Markets(own)|),
      VBool(AllSample(own)))
  }

  function IdempotencyKey(env: Env, address: string, m: Metrics): string {
    env.digest(KeyText(env, address, m, V1))
  }

  lemma RecordEntries(s: Value, w: Value, c: Value, l: Value, f: Value, k: Value, b: Value)
    ensures var m := Record(s, w, c, l, f, k, b);
            && (forall x :: x in m <==> IsField(x))
            && m["sharpe_ratio"] == s && m["win_rate"] == w && m["trade_count"] == c && m["latest_trade_ts"] == l
            && m["first_trade_ts"] == f && m["markets_traded"] == k && m["is_sample"] == b
  {
  }

  /** The seven entries of a wallet's metrics, by its rows. */
  predicate Entry(m: Metrics, f: string, v: Value) {
    f in m && m[f] == v
  }

  ghost predicate Describes(env: Env, m: Metrics, own: seq<Trade>)
    requires own != []
  {
    && (forall f :: f in m <==> IsField(f))
    && Entry(m, "sharpe_ratio", if |own| >= 5 then VFloat(env.estimate(Wins(own), |own|)) else VNone)
    && Entry(m, "win_rate", VFloat(Wins(own) as real / |own| as real)) && Entry(m, "trade_count", VInt(|own|))
    && Entry(m, "latest_trade_ts", VDate(Latest(own))) && Entry(m, "first_trade_ts", VDate(Earliest(own)))
    && Entry(m, "markets_traded", VInt(|set t | t in own :: t.market|))
    && Entry(m, "is_sample", VBool(forall t :: t in own ==> t.isSample))
  }

  lemma MetricEntries(env: Env, own: seq<Trade>)
    requires own != []
    ensures Describes(env, MetricsOf(env, own), own)
  {
    RecordEntries(
      if |own| >= 5 then VFloat(env.estimate(Wins(own), |own|)) else VNone, VFloat(WinRate(own)),
      VInt(|own|), VDate(Latest(own)), VDate(Earliest(own)), VInt(|Markets(own)|), VBool(AllSample(own)));
  }

  /** What the key keeps of a wallet's rows. */
  ghost predicate SameHistory(env: Env, x: seq<Trade>, y: seq<Trade>)
    requires x != [] && y != []
  {
    && |x| == |y| && Latest(x) == Latest(y) && Earliest(x) == Earliest(y)
    && |set t | t in x :: t.market| == |set t | t in y :: t.market|
    && ((forall t :: t in x ==> t.isSample) <==> (forall t :: t in y ==> t.isSample))
    && env.round9(Wins(x) as real / |x| as real) == env.round9(Wins(y) as real / |y| as real)
    && (|x| >= 5 ==> env.round9(env.estimate(Wins(x), |x|)) == env.round9(env.estimate(Wins(y), |y|)))
  }

  lemma SevenFields(env: Env, m: Metrics, n: Metrics)
    ensures SameEvidence(env, m, n)
            <==> && SameField(env, m, n, "trade_count") && SameField(env, m, n, "latest_trade_ts")
                 && SameField(env, m, n, "first_trade_ts") && SameField(env, m, n, "markets_traded")
                 && SameField(env, m, n, "is_sample") && SameField(env, m, n, "win_rate")
                 && SameField(env, m, n, "sharpe_ratio")
  {
  }

  lemma EvidenceOfHistory(env: Env, x: seq<Trade>, y: seq<Trade>)
    requires Faithful(env) && x != [] && y != []
    ensures SameEvidence(env, MetricsOf(env, x), MetricsOf(env, y)) <==> SameHistory(env, x, y)
  {
    var m, n := MetricsOf(env, x), MetricsOf(env, y);
    MetricEntries(env, x);
    MetricEntries(env, y);
    EntriesDecide(env, m, n, x, y);
  }

  lemma SameEntry(env: Env, m: Metrics, n: Metrics, f: string, v: Value, w: Value)
    requires Entry(m, f, v) && Entry(n, f, w)
    ensures SameField(env, m, n, f) <==> SameSignal(env, v, w)
  {
  }

  lemma SameDates(env: Env, at: int, bt: int)
    requires Faithful(env)
    ensures SameSignal(env, VDate(at), VDate(bt)) <==> at == bt
  {
  }

  lemma SameInts(env: Env, m: Metrics, n: Metrics, f: string, i: int, j: int)
    requires Entry(m, f, VInt(i)) && Entry(n, f, VInt(j))
    ensures SameField(env, m, n, f) <==> i == j
  {
    SameEntry(env, m, n, f, VInt(i), VInt(j));
  }

  lemma SameStamps(env: Env, m: Metrics, n: Metrics, f: string, at: int, bt: int)
    requires Faithful(env) && Entry(m, f, VDate(at)) && Entry(n, f, VDate(bt))
    ensures SameField(env, m, n, f) <==> at == bt
  {
    SameEntry(env, m, n, f, VDate(at), VDate(bt));
    SameDates(env, at, bt);
  }

  lemma SameFlags(env: Env, m: Metrics, n: Metrics, f: string, b: bool, c: bool)
    requires Entry(m, f, VBool(b)) && Entry(n, f, VBool(c))
    ensures SameField(env, m, n, f) <==> b == c
  {
    SameEntry(env, m, n, f, VBool(b), VBool(c));
  }

  lemma SameFloats(env: Env, m: Metrics, n: Metrics, f: string, x: real, y: real)
    requires Entry(m, f, VFloat(x)) && Entry(n, f, VFloat(y))
    ensures SameField(env, m, n, f) <==> env.round9(x) == env.round9(y)
  {
    SameEntry(env, m, n, f, VFloat(x), VFloat(y));
  }

  /** The Sharpe estimate is missing below five rows. */
  lemma SameEstimates(env: Env, m: Metrics, n: Metrics, f: string, long: bool, x: real, y: real)
    requires Entry(m, f, if long then VFloat(x) else VNone) && Entry(n, f, if long then VFloat(y) else VNone)
    ensures SameField(env, m, n, f) <==> (long ==> env.round9(x) == env.round9(y))
  {
    SameEntry(env, m, n, f, if long then VFloat(x) else VNone, if long then VFloat(y) else VNone);
  }

  lemma EntriesDecide(env: Env, m: Metrics, n: Metrics, x: seq<Trade>, y: seq<Trade>)
    requires Faithful(env) && x != [] && y != [] && Describes(env, m, x) && Describes(env, n, y)
    ensures SameEvidence(env, m, n) <==> SameHistory(env, x, y)
  {
    SevenFields(env, m, n);
    SameInts(env, m, n, "trade_count", |x|, |y|);
    SameInts(env, m, n, "markets_traded", |set t | t in x :: t.market|, |set t | t in y :: t.market|);
    SameStamps(env, m, n, "latest_trade_ts", Latest(x), Latest(y));
    SameStamps(env, m, n, "first_trade_ts", Earliest(x), Earliest(y));
    SameFlags(env, m, n, "is_sample", forall t :: t in x ==> t.isSample, forall t :: t in y ==> t.isSample);
    SameFloats(env, m, n, "win_rate", Wins(x) as real / |x| as real, Wins(y) as real / |y| as real);
    if |x| == |y| {
      SameEstimates(env, m, n, "sharpe_ratio", |x| >= 5, env.estimate(Wins(x), |x|), env.estimate(Wins(y), |y|));
    }
  }

  /** Two histories of one wallet have the same key exactly when they have the same number of
      rows, the same newest and oldest stamp, as many markets, samples only in both or in
      neither, and a win rate and Sharpe estimate that round alike. */
  lemma KeyDecidesHistory(env: Env, a: string, x: seq<Trade>, y: seq<Trade>)
    requires Faithful(env) && x != [] && y != []
    ensures IdempotencyKey(env, a, MetricsOf(env, x)) == IdempotencyKey(env, a, MetricsOf(env, y))
            <==> SameHistory(env, x, y)
  {
    KeyTextDecides(env, a, MetricsOf(env, x), V1, a, MetricsOf(env, y), V1);
    EvidenceOfHistory(env, x, y);
  }

  /** The connection to the database as the scan uses it. */
  class Database {
    var wallets: map<string, string>
    var trades: seq<Trade>
    var decisions: seq<Decision>

    function Contents(): Store
      reads this
    {
      Store(wallets, trades, decisions)
    }

    constructor (st: Store)
      ensures Contents() == st
    {
      wallets, trades, decisions := st.wallets, st.trades, st.decisions;
    }

    /** INSERT OR IGNORE on the unique columns. */
    method InsertOrIgnore(row: Decision)
      requires Valid(Contents())
      modifies this`decisions
      ensures Valid(Contents())
      ensures (exists r :: r in old(decisions) && r.wallet == row.wallet && r.version == row.version && r.key == row.key)
              ==> decisions == old(decisions)
      ensures !(exists r :: r in old(decisions) && r.wallet == row.wallet && r.version == row.version && r.key == row.key)
              ==> decisions == old(decisions) + [row]
    {
      if !exists r :: r in decisions && SameIdentity(r, row) {
        decisions := decisions + [row];
      }
    }
  }
}
