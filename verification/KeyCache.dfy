/** The pre-flight cache of "wallet_id|idempotency_key" texts. Its membership and
    startswith tests decide the same as lookups of pairs in the decision table, because
    wallet ids contain no '|'. */
module KeyCache {
  import opened ScanStore

  function Combo(wallet: string, key: string): string {
    wallet + "|" + key
  }

  predicate StartsWith(text: string, prefix: string) {
    |prefix| <= |text| && text[..|prefix|] == prefix
  }

  /** The texts that the V1 rows of the given wallets stand for. */
  function Cache(rows: seq<Decision>, ids: set<string>): set<string> {
    set r | r in rows && r.version == V1 && r.wallet in ids :: Combo(r.wallet, r.key)
  }

  lemma {:induction false} BarSplits(w: string, v: string, s: string, t: string)
    requires '|' !in w && '|' !in v
    requires w + ("|" + s) == v + ("|" + t)
    ensures w == v && s == t
  {
    var x, y := w + ("|" + s), v + ("|" + t);
    assert x[|w|] == '|' && y[|v|] == '|';
    assert |w| == |v|;
    assert x[..|w|] == w && y[..|v|] == v;
    assert x[|w| + 1..] == s && y[|v| + 1..] == t;
  }

  lemma ComboInjective(w: string, k: string, v: string, l: string)
    requires '|' !in w && '|' !in v && Combo(w, k) == Combo(v, l)
    ensures w == v && k == l
  {
    assert Combo(w, k) == w + ("|" + k) && Combo(v, l) == v + ("|" + l);
    BarSplits(w, v, k, l);
  }

  ghost predicate BarFree(ids: set<string>) {
    forall w :: w in ids ==> '|' !in w
  }

  /** Membership in the cache is a pair lookup in the table. */
  lemma CacheDecidesPairs(rows: seq<Decision>, ids: set<string>, w: string, key: string)
    requires BarFree(ids) && w in ids
    ensures Combo(w, key) in Cache(rows, ids) <==> Tabled(rows, w, key)
  {
    if Combo(w, key) in Cache(rows, ids) {
      var r :| r in rows && r.version == V1 && r.wallet in ids && Combo(r.wallet, r.key) == Combo(w, key);
      ComboInjective(r.wallet, r.key, w, key);
      var i :| 0 <= i < |rows| && rows[i] == r;
      assert IsV1(rows[i], w);
    }
    if Tabled(rows, w, key) {
      var i :| 0 <= i < |rows| && IsV1(rows[i], w) && rows[i].key == key;
      assert rows[i] in rows;
    }
  }

  predicate AnyStartsWith(cache: set<string>, prefix: string) {
    exists c :: c in cache && StartsWith(c, prefix)
  }

  lemma PrefixNamesWallet(v: string, key: string, w: string)
    requires '|' !in v && '|' !in w && StartsWith(Combo(v, key), w + "|")
    ensures v == w
  {
    var c := Combo(v, key);
    var rest := c[|w| + 1..];
    assert c == c[..|w| + 1] + rest;
    assert c == w + ("|" + rest) && c == v + ("|" + key);
    BarSplits(v, w, key, rest);
  }

  lemma ComboStartsWithWallet(w: string, key: string)
    ensures StartsWith(Combo(w, key), w + "|")
  {
    assert Combo(w, key)[..|w + "|"|] == w + "|";
  }

  /** A startswith scan of the cache finds the wallets that have a V1 row, and no others. */
  lemma CacheDecidesWallets(rows: seq<Decision>, ids: set<string>, w: string)
    requires BarFree(ids) && w in ids
    ensures AnyStartsWith(Cache(rows, ids), w + "|") <==> HasPrior(rows, w)
  {
    if AnyStartsWith(Cache(rows, ids), w + "|") {
      var c :| c in Cache(rows, ids) && StartsWith(c, w + "|");
      var r :| r in rows && r.version == V1 && r.wallet in ids && Combo(r.wallet, r.key) == c;
      PrefixNamesWallet(r.wallet, r.key, w);
      var i :| 0 <= i < |rows| && rows[i] == r;
      assert IsV1(rows[i], w);
    }
    if HasPrior(rows, w) {
      var i :| 0 <= i < |rows| && IsV1(rows[i], w);
      assert rows[i] in rows && Combo(w, rows[i].key) in Cache(rows, ids);
      ComboStartsWithWallet(w, rows[i].key);
    }
  }

  /** Recording a new row's text keeps the cache equal to the table. */
  lemma CacheFollowsInsert(rows: seq<Decision>, ids: set<string>, w: string, key: string, stamp: int)
    requires w in ids
    ensures Cache(rows + [Decision(w, V1, key, stamp)], ids) == Cache(rows, ids) + {Combo(w, key)}
  {
    var r := Decision(w, V1, key, stamp);
    assert forall q :: q in rows + [r] <==> q in rows || q == r;
    assert r in rows + [r];
  }
}
