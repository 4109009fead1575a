/** Streaming wallet metrics (_compute_wallet_metrics): one pass over the wallet's rows that
    keeps scalars only. */
module WalletMetrics {
  import opened Basics
  import opened Identity
  import opened Canonical
  import opened ScanStore

  lemma StreamStep(own: seq<Trade>, i: nat)
    requires i < |own|
    ensures Wins(own[..i + 1]) == Wins(own[..i]) + (if IsWin(own[i]) then 1 else 0)
    ensures AllSample(own[..i + 1]) <==> AllSample(own[..i]) && own[i].isSample
    ensures Latest(own[..i + 1]) == if i == 0 then own[i].at else Max(Latest(own[..i]), own[i].at)
    ensures Earliest(own[..i + 1]) == if i == 0 then own[i].at else Min(Earliest(own[..i]), own[i].at)
  {
    assert own[..i + 1][..i] == own[..i];
    assert own[..i + 1] == own[..i] + [own[i]];
  }

  /** One pass over the cursor. The loop body holds one row and five scalars. */
  method StreamTrades(own: seq<Trade>)
    returns (tradeCount: nat, wins: nat, allSample: bool, latest: Option<int>, first: Option<int>)
    ensures tradeCount == |own| && wins == Wins(own) && allSample == AllSample(own)
    ensures own == [] ==> latest.None? && first.None?
    ensures own != [] ==> latest == Some(Latest(own)) && first == Some(Earliest(own))
  {
    tradeCount, wins, allSample, latest, first := 0, 0, true, None, None;
    for i := 0 to |own|
      invariant tradeCount == i && wins == Wins(own[..i])
      invariant allSample == AllSample(own[..i])
      invariant i == 0 ==> latest.None? && first.None?
      invariant i > 0 ==> latest == Some(Latest(own[..i])) && first == Some(Earliest(own[..i]))
    {
      var trade := own[i];
      StreamStep(own, i);
      tradeCount := tradeCount + 1;
      if trade.side == "buy" && trade.price < 0.5 {
        wins := wins + 1;
      } else if trade.side == "sell" && trade.price > 0.5 {
        wins := wins + 1;
      }
      if !trade.isSample {
        allSample := false;
      }
      if latest.None? || trade.at > latest.value {
        latest := Some(trade.at);
      }
      if first.None? || trade.at < first.value {
        first := Some(trade.at);
      }
    }
    assert own[..|own|] == own;
  }

  /** The metrics of a wallet, or None for a sentinel address or a wallet without rows. */
  method ComputeWalletMetrics(db: Database, env: Env, address: string) returns (m: Option<Metrics>)
    ensures m == match CanonicalWalletAddress(Some(address))
                 case None => None
                 case Some(canonical) =>
                   var own := OwnTrades(db.trades, canonical);
                   if own == [] then None else Some(MetricsOf(env, own))
    ensures m.Some? ==>
              var canonical := CanonicalWalletAddress(Some(address));
              canonical.Some? && OwnTrades(db.trades, canonical.value) != []
              && Describes(env, m.value, OwnTrades(db.trades, canonical.value))
  {
    var canonical := CanonicalWalletAddress(Some(address));
    if canonical.None? {
      return None;
    }
    var own := OwnTrades(db.trades, canonical.value);
    var tradeCount, wins, allSample, latest, first := StreamTrades(own);
    if tradeCount == 0 {
      return None;
    }
    MetricEntries(env, own);
    var winRate := wins as real / tradeCount as real;
    var sharpe := if tradeCount >= 5 then VFloat(env.estimate(wins, tradeCount)) else VNone;
    m := Some(Record(
      sharpe, VFloat(winRate), VInt(tradeCount), VDate(latest.value), VDate(first.value),
      VInt(|Markets(own)|), VBool(allSample)));
  }

  /** Rows that buy below one half or sell above it, in lower case. */
  ghost function Winning(own: seq<Trade>): set<nat> {
    set i: nat | i < |own| && (own[i].side == "buy" || own[i].side == "sell")
                 && if own[i].side == "buy" then own[i].price < 0.5 else own[i].price > 0.5
  }

  lemma WinningSnoc(own: seq<Trade>, n: nat)
    requires |own| == n + 1
    ensures |Winning(own)| == |Winning(own[..n])| + (if IsWin(own[n]) then 1 else 0)
  {
    var last := if IsWin(own[n]) then {n} else {};
    assert Winning(own) == Winning(own[..n]) + last;
  }

  /** Wins counts these rows. */
  lemma {:induction false} WinsCountRows(own: seq<Trade>)
    ensures Wins(own) == |Winning(own)|
  {
    if own != [] {
      WinsCountRows(own[..|own| - 1]);
      WinningSnoc(own, |own| - 1);
    }
  }

  /** The write path stores sides in upper case; the metrics loop looks for lower case. */
  predicate SideIsCanonical(t: Trade) {
    t.side == "BUY" || t.side == "SELL"
  }

  /** So a wallet scores a win only from a row that bypassed the write path's spelling: on
      canonical rows the win rate is zero whatever the prices are. */
  lemma {:induction false} CanonicalSidesNeverWin(own: seq<Trade>)
    requires forall t :: t in own ==> SideIsCanonical(t)
    ensures Wins(own) == 0
    ensures own != [] ==> WinRate(own) == 0.0
  {
    if own != [] {
      var n := |own| - 1;
      CanonicalSidesNeverWin(own[..n]);
      assert own[n] in own && SideIsCanonical(own[n]);
      assert own[n].side[0] != "buy"[0] && own[n].side[0] != "sell"[0];
    }
  }

  // ---- what the win rate misses ---------------------------------------------------------------

  /** A win by its meaning: bought below a half or sold above it, however the side is spelled. */
  predicate IntendedWin(t: Trade) {
    (Lower(t.side) == "buy" && t.price < 0.5) || (Lower(t.side) == "sell" && t.price > 0.5)
  }

  function IntendedWins(own: seq<Trade>): (n: nat)
    ensures n <= |own|
  {
    if own == [] then 0 else IntendedWins(own[..|own| - 1]) + (if IntendedWin(own[|own| - 1]) then 1 else 0)
  }

  /** An intended win that the loop does not count. */
  predicate MissedWin(t: Trade) {
    IntendedWin(t) && t.side != "buy" && t.side != "sell"
  }

  lemma SpellingDecides(t: Trade)
    ensures IsWin(t) <==> IntendedWin(t) && !MissedWin(t)
  {
    assert Lower("buy") == "buy" && Lower("sell") == "sell";
  }

  lemma {:induction false} WinsAreSome(own: seq<Trade>)
    ensures Wins(own) <= IntendedWins(own)
    ensures Wins(own) == IntendedWins(own) <==> forall t :: t in own ==> !MissedWin(t)
  {
    if own != [] {
      var n := |own| - 1;
      WinsAreSome(own[..n]);
      SpellingDecides(own[n]);
      assert own == own[..n] + [own[n]];
    }
  }

  lemma {:induction false} NoneIntended(own: seq<Trade>)
    ensures IntendedWins(own) == 0 <==> forall t :: t in own ==> !IntendedWin(t)
  {
    if own != [] {
      var n := |own| - 1;
      NoneIntended(own[..n]);
      assert own == own[..n] + [own[n]];
    }
  }

  /** The loop counts every intended win exactly when no row wins under another spelling than
      the lower-case one. On rows of the write path that is: exactly when none of them wins. */
  lemma WinsAreIntendedExactlyWhen(own: seq<Trade>)
    ensures Wins(own) == IntendedWins(own) <==> forall t :: t in own ==> !MissedWin(t)
    ensures (forall t :: t in own ==> SideIsCanonical(t)) ==>
              (Wins(own) == IntendedWins(own) <==> forall t :: t in own ==> !IntendedWin(t))
  {
    WinsAreSome(own);
    NoneIntended(own);
    if forall t :: t in own ==> SideIsCanonical(t) {
      CanonicalSidesNeverWin(own);
    }
  }

  /** One bet at a tenth, stored as the write path stores it: a win that is not counted, and a
      win rate of zero instead of one. */
  lemma BuyBelowHalfIsMissed(trader: string)
    ensures var own := [Trade(Some(trader), 5, "BUY", 0.1, "m", false)];
            Wins(own) == 0 && IntendedWins(own) == |own| == 1 && WinRate(own) == 0.0
  {
    var t := Trade(Some(trader), 5, "BUY", 0.1, "m", false);
    assert Lower("BUY") == "buy";
    assert IntendedWin(t) && [t][..0] == [];
    CanonicalSidesNeverWin([t]);
  }
}
