/** The canonical metrics blob and the text that the wallet idempotency key hashes.
    The JSON printer is modelled character by character, so that "same key text" can be
    shown to mean "same wallet and same normalised metrics". */
module Canonical {
  /** What a metrics dictionary can hold. Dates are instants; see Env.iso for their text. */
  datatype Value =
    | VNone
    | VBool(b: bool)
    | VInt(i: int)
    | VFloat(x: real)
    | VText(s: string)
    | VDate(at: int)

  type Metrics = map<string, Value>

  /** What the scripts take from the Python runtime: datetime.isoformat, round(x, 9) counted in
      billionths, the text of a float so rounded, the first 32 hex characters of SHA-256, and
      the rounded Sharpe estimate. */
  datatype Env = Env(
    iso: int -> string,
    round9: real -> int,
    repr: int -> string,
    digest: string -> string,
    estimate: (nat, nat) -> real)

  predicate IsNumberChar(c: char) {
    '0' <= c <= '9' || c == '-' || c == '+' || c == '.' || c == 'e'
  }

  /** The printers and the digest are injective; repr is a numeral no int is printed as. */
  ghost predicate Faithful(env: Env) {
    && (forall s, t :: env.digest(s) == env.digest(t) ==> s == t)
    && (forall a, b :: env.iso(a) == env.iso(b) ==> a == b)
    && (forall m, n :: env.repr(m) == env.repr(n) ==> m == n)
    && (forall n :: env.repr(n) != "" && (forall i :: 0 <= i < |env.repr(n)| ==> IsNumberChar(env.repr(n)[i])))
    && (forall n :: '.' in env.repr(n) || 'e' in env.repr(n))
  }

  /** A JSON scalar as the blob can contain it. */
  datatype Json = JNull | JTrue | JInt(i: int) | JFloat(billionths: int) | JString(s: string)

  /** Missing, None and False are one signal; dates become text; floats are rounded. */
  function Normalise(env: Env, v: Value): Json {
    match v
    case VNone => JNull
    case VBool(b) => if b then JTrue else JNull
    case VInt(i) => JInt(i)
    case VFloat(x) => JFloat(env.round9(x))
    case VText(s) => JString(s)
    case VDate(at) => JString(env.iso(at))
  }

  function Get(m: Metrics, key: string): Value {
    if key in m then m[key] else VNone
  }

  /** The seven fields that the blob carries, in the order sort_keys prints them. */
  const FIELDS: seq<string> := [
    "first_trade_ts", "is_sample", "latest_trade_ts", "markets_traded",
    "sharpe_ratio", "trade_count", "win_rate"]

  function Fields(env: Env, m: Metrics): (r: seq<Json>)
    ensures |r| == |FIELDS|
    ensures forall i :: 0 <= i < |FIELDS| ==> r[i] == Normalise(env, Get(m, FIELDS[i]))
  {
    seq(|FIELDS|, i requires 0 <= i < |FIELDS| => Normalise(env, Get(m, FIELDS[i])))
  }

  // ---- printing --------------------------------------------------------------------

  function Digit(n: nat): char
    requires n < 10
  {
    '0' + n as char
  }

  function Decimal(n: nat): (r: string)
    ensures r != ""
    ensures forall i :: 0 <= i < |r| ==> '0' <= r[i] <= '9'
  {
    if n < 10 then [Digit(n)] else Decimal(n / 10) + [Digit(n % 10)]
  }

  function PrintInt(i: int): (r: string)
    ensures r != ""
    ensures forall k :: 0 <= k < |r| ==> IsNumberChar(r[k]) && r[k] != '.' && r[k] != 'e'
  {
    if i < 0 then "-" + Decimal(-i) else Decimal(i)
  }

  function HexDigit(n: nat): char
    requires n < 16
  {
    if n < 10 then '0' + n as char else 'a' + (n - 10) as char
  }

  function Hex4(n: nat): (r: string)
    requires n < 0x10000
    ensures |r| == 4
  {
    [HexDigit(n / 0x1000), HexDigit(n / 0x100 % 16), HexDigit(n / 16 % 16), HexDigit(n % 16)]
  }

  /** json.dumps with ensure_ascii: short escapes, \uXXXX, or a surrogate pair. */
  function EscapeChar(c: char): (r: string)
    ensures r != ""
  {
    var n := c as int;
    if c == '"' then "\\\""
    else if c == '\\' then "\\\\"
    else if c == '\n' then "\\n"
    else if c == '\r' then "\\r"
    else if c == '\t' then "\\t"
    else if n == 12 then "\\f"
    else if n == 8 then "\\b"
    else if 0x20 <= n <= 0x7e then [c]
    else if n < 0x10000 then "\\u" + Hex4(n)
    else "\\u" + Hex4(0xd800 + (n - 0x10000) / 0x400) + "\\u" + Hex4(0xdc00 + (n - 0x10000) % 0x400)
  }

  function Escape(s: string): string {
    if s == "" then "" else EscapeChar(s[0]) + Escape(s[1..])
  }

  function Quote(s: string): string {
    "\"" + Escape(s) + "\""
  }

  function Print(env: Env, j: Json): string {
    match j
    case JNull => "null"
    case JTrue => "true"
    case JInt(i) => PrintInt(i)
    case JFloat(n) => env.repr(n)
    case JString(s) => Quote(s)
  }

  /** The members of an object, starting at one of them: name, value, separator. */
  function PrintMembers(env: Env, names: seq<string>, values: seq<Json>): string
    requires |names| == |values|
  {
    if names == [] then "}"
    else MemberName(names[0])
         + (Print(env, values[0]) + (Separator(names) + PrintMembers(env, names[1..], values[1..])))
  }

  function MemberName(name: string): string { "\"" + name + "\":" }

  function Separator(names: seq<string>): string { if |names| == 1 then "" else "," }

  function CanonicalMetricsBlob(env: Env, m: Metrics): string {
    "{" + PrintMembers(env, FIELDS, Fields(env, m))
  }

  /** The text _wallet_idempotency_key hashes. Re-reading the blob and printing it again
      inside the outer object reproduces it, because the printer is deterministic. */
  function KeyText(env: Env, address: string, m: Metrics, version: string): string {
    "{" + (MemberName("metrics") + (CanonicalMetricsBlob(env, m) + KeyTail(address, version)))
  }

  function KeyTail(address: string, version: string): string {
    "," + (MemberName("v") + (Quote(version)
    + ("," + (MemberName("wallet") + (Quote(address) + "}")))))
  }

  // ---- reading back: every printer is prefix-free ----------------------------------

  lemma DigitInjective(a: nat, b: nat)
    requires a < 10 && b < 10 && Digit(a) == Digit(b)
    ensures a == b
  {
    assert Digit(a) as int == 48 + a && Digit(b) as int == 48 + b;
  }

  lemma {:induction false} DecimalInjective(m: nat, n: nat)
    requires Decimal(m) == Decimal(n)
    ensures m == n
  {
    var a, b := Decimal(m), Decimal(n);
    assert a[|a| - 1] == Digit(m % 10) && b[|b| - 1] == Digit(n % 10);
    DigitInjective(m % 10, n % 10);
    if m >= 10 && n >= 10 {
      assert a[..|a| - 1] == Decimal(m / 10) && b[..|b| - 1] == Decimal(n / 10);
      DecimalInjective(m / 10, n / 10);
    }
  }

  lemma PrintIntInjective(i: int, j: int)
    requires PrintInt(i) == PrintInt(j)
    ensures i == j
  {
    var a, b := PrintInt(i), PrintInt(j);
    assert i < 0 <==> a[0] == '-';
    assert j < 0 <==> b[0] == '-';
    if i < 0 && j < 0 {
      assert a[1..] == Decimal(-i) && b[1..] == Decimal(-j);
      DecimalInjective(-i, -j);
    } else if i >= 0 && j >= 0 {
      DecimalInjective(i, j);
    }
  }

  /** The assumption on the runtime can be met. */
  lemma FaithfulIsPossible() returns (env: Env)
    ensures Faithful(env)
  {
    env := Env(PrintInt, (x: real) => x.Floor, n => PrintInt(n) + ".", s => s, (wins, count) => 0.0);
    forall a, b | env.iso(a) == env.iso(b) ensures a == b { PrintIntInjective(a, b); }
    forall m, n | env.repr(m) == env.repr(n) ensures m == n { PointedInjective(m, n); }
    forall n ensures '.' in env.repr(n) { assert env.repr(n)[|PrintInt(n)|] == '.'; }
  }

  lemma PointedInjective(m: int, n: int)
    requires PrintInt(m) + "." == PrintInt(n) + "."
    ensures m == n
  {
    var s, t := PrintInt(m) + ".", PrintInt(n) + ".";
    assert s[..|s| - 1] == PrintInt(m) && t[..|t| - 1] == PrintInt(n);
    PrintIntInjective(m, n);
  }

  lemma HexDigitInjective(a: nat, b: nat)
    requires a < 16 && b < 16 && HexDigit(a) == HexDigit(b)
    ensures a == b
  {
    assert HexDigit(a) as int == if a < 10 then 48 + a else 97 + (a - 10);
    assert HexDigit(b) as int == if b < 10 then 48 + b else 97 + (b - 10);
  }

  lemma HexPlaces(n: nat)
    ensures n == 16 * (16 * (16 * (n / 0x1000) + n / 0x100 % 16) + n / 16 % 16) + n % 16
  {
    assert n / 0x100 == n / 16 / 16 && n / 0x1000 == n / 0x100 / 16;
  }

  lemma Hex4Injective(m: nat, n: nat)
    requires m < 0x10000 && n < 0x10000 && Hex4(m) == Hex4(n)
    ensures m == n
  {
    var a, b := Hex4(m), Hex4(n);
    HexDigitInjective(m / 0x1000, n / 0x1000) by { assert a[0] == b[0]; }
    HexDigitInjective(m / 0x100 % 16, n / 0x100 % 16) by { assert a[1] == b[1]; }
    HexDigitInjective(m / 16 % 16, n / 16 % 16) by { assert a[2] == b[2]; }
    HexDigitInjective(m % 16, n % 16) by { assert a[3] == b[3]; }
    HexPlaces(m);
    HexPlaces(n);
  }

  lemma Cancel(p: string, s: string, t: string)
    requires p + s == p + t
    ensures s == t
  {
    assert (p + s)[|p|..] == s && (p + t)[|p|..] == t;
  }

  lemma SixEscapeInjective(c: char, d: char)
    requires |EscapeChar(c)| == 6 && EscapeChar(c) == EscapeChar(d)
    ensures c == d
  {
    assert EscapeChar(c)[2..] == Hex4(c as int) && EscapeChar(d)[2..] == Hex4(d as int);
    Hex4Injective(c as int, d as int);
  }

  lemma PairHalves(c: char)
    requires |EscapeChar(c)| == 12
    ensures c as int >= 0x10000
    ensures EscapeChar(c)[2..6] == Hex4(0xd800 + (c as int - 0x10000) / 0x400)
    ensures EscapeChar(c)[8..] == Hex4(0xdc00 + (c as int - 0x10000) % 0x400)
  {
  }

  lemma PairEscapeInjective(c: char, d: char)
    requires |EscapeChar(c)| == 12 && EscapeChar(c) == EscapeChar(d)
    ensures c == d
  {
    PairHalves(c);
    PairHalves(d);
    var m, n := c as int - 0x10000, d as int - 0x10000;
    Hex4Injective(0xd800 + m / 0x400, 0xd800 + n / 0x400);
    Hex4Injective(0xdc00 + m % 0x400, 0xdc00 + n % 0x400);
  }

  lemma ShortEscapeInjective(c: char, d: char)
    requires |EscapeChar(c)| <= 2 && EscapeChar(c) == EscapeChar(d)
    ensures c == d
  {
    assert EscapeChar(c)[0] == EscapeChar(d)[0];
    assert |EscapeChar(c)| == 2 ==> EscapeChar(c)[1] == EscapeChar(d)[1];
  }

  lemma EscapeCharInjective(c: char, d: char)
    requires EscapeChar(c) == EscapeChar(d)
    ensures c == d
  {
    if |EscapeChar(c)| == 6 {
      SixEscapeInjective(c, d);
    } else if |EscapeChar(c)| == 12 {
      PairEscapeInjective(c, d);
    } else {
      ShortEscapeInjective(c, d);
    }
  }

  /** Escapes of different lengths are told apart by their first characters; a six
      character escape is never the first half of a surrogate pair. */
  lemma EscapeLengthDecided(c: char, d: char, s: string, t: string)
    requires EscapeChar(c) + s == EscapeChar(d) + t
    ensures |EscapeChar(c)| == |EscapeChar(d)|
  {
    var e, f := EscapeChar(c), EscapeChar(d);
    var w := e + s;
    assert w[0] == e[0] == f[0];
    if |e| >= 2 && |f| >= 2 {
      assert w[1] == e[1] && (f + t)[1] == f[1];
      if |e| >= 6 && |f| >= 6 {
        assert w[2..6] == e[2..6] && (f + t)[2..6] == f[2..6];
        if |e| == 6 && |f| == 12 {
          SurrogateIsNoScalar(c, d);
        } else if |e| == 12 && |f| == 6 {
          SurrogateIsNoScalar(d, c);
        }
      }
    }
  }

  lemma SurrogateIsNoScalar(c: char, d: char)
    requires |EscapeChar(c)| == 6 && |EscapeChar(d)| == 12
    ensures EscapeChar(c)[2..6] != EscapeChar(d)[2..6]
  {
    assert EscapeChar(c)[2..6] == Hex4(c as int);
    assert EscapeChar(d)[2..6] == Hex4(0xd800 + (d as int - 0x10000) / 0x400);
    if Hex4(c as int) == Hex4(0xd800 + (d as int - 0x10000) / 0x400) {
      Hex4Injective(c as int, 0xd800 + (d as int - 0x10000) / 0x400);
    }
  }

  lemma EscapeCharPrefixFree(c: char, d: char, s: string, t: string)
    requires EscapeChar(c) + s == EscapeChar(d) + t
    ensures c == d && s == t
  {
    EscapeLengthDecided(c, d, s, t);
    var e, f := EscapeChar(c), EscapeChar(d);
    assert (e + s)[..|e|] == e && (f + t)[..|f|] == f;
    EscapeCharInjective(c, d);
    Cancel(e, s, t);
  }

  /** What an escaped string prints like when more text follows its closing quote. */
  function Closed(a: string, s: string): string { Escape(a) + ("\"" + s) }

  lemma ClosedStep(a: string, s: string)
    ensures a == "" ==> Closed(a, s) == "\"" + s
    ensures a != "" ==> Closed(a, s) == EscapeChar(a[0]) + Closed(a[1..], s)
    ensures Closed(a, s)[0] == '"' <==> a == ""
  {
    if a != "" {
      NoBareQuote(a[0]);
    }
  }

  lemma NoBareQuote(c: char)
    ensures EscapeChar(c)[0] != '"'
  {
  }

  /** An escaped string ends at the first bare quote, so what follows it is determined. */
  lemma {:induction false} EscapePrefixFree(a: string, b: string, s: string, t: string)
    requires Closed(a, s) == Closed(b, t)
    ensures a == b && s == t
    decreases |a| + |b|
  {
    ClosedStep(a, s);
    ClosedStep(b, t);
    if a != "" && b != "" {
      EscapeCharPrefixFree(a[0], b[0], Closed(a[1..], s), Closed(b[1..], t));
      EscapePrefixFree(a[1..], b[1..], s, t);
      assert a == [a[0]] + a[1..] && b == [b[0]] + b[1..];
    } else if a == "" && b == "" {
      Cancel("\"", s, t);
    }
  }

  lemma QuoteOpens(a: string, s: string)
    ensures Quote(a) + s == "\"" + Closed(a, s)
  {
  }

  lemma QuotePrefixFree(a: string, b: string, s: string, t: string)
    requires Quote(a) + s == Quote(b) + t
    ensures a == b && s == t
  {
    QuoteOpens(a, s);
    QuoteOpens(b, t);
    Cancel("\"", Closed(a, s), Closed(b, t));
    EscapePrefixFree(a, b, s, t);
  }

  predicate Ends(s: string) {
    s != "" && (s[0] == ',' || s[0] == '}')
  }

  ghost predicate Numeral(s: string) {
    forall i :: 0 <= i < |s| ==> IsNumberChar(s[i])
  }

  lemma {:induction false} NumeralPrefixFree(a: string, b: string, s: string, t: string)
    requires Numeral(a) && Numeral(b) && Ends(s) && Ends(t)
    requires a + s == b + t
    ensures a == b && s == t
  {
    assert (a + s)[0] == (a + s[..1])[0] && (b + t)[0] == (b + t[..1])[0];
    if a == "" || b == "" {
      Cancel(a, s, t);
    } else {
      assert (a + s)[0] == a[0] && (b + t)[0] == b[0];
      assert (a + s)[1..] == a[1..] + s && (b + t)[1..] == b[1..] + t;
      NumeralPrefixFree(a[1..], b[1..], s, t);
      assert a == [a[0]] + a[1..] && b == [b[0]] + b[1..];
    }
  }

  predicate IsNumber(j: Json) { j.JInt? || j.JFloat? }

  lemma FirstChar(env: Env, j: Json)
    requires Faithful(env)
    ensures Print(env, j) != ""
    ensures IsNumber(j) <==> IsNumberChar(Print(env, j)[0])
    ensures IsNumber(j) ==> Numeral(Print(env, j))
    ensures j.JNull? <==> Print(env, j)[0] == 'n'
    ensures j.JTrue? <==> Print(env, j)[0] == 't'
    ensures j.JString? <==> Print(env, j)[0] == '"'
  {
  }

  lemma NumberInjective(env: Env, a: Json, b: Json)
    requires Faithful(env) && IsNumber(a) && IsNumber(b)
    requires Print(env, a) == Print(env, b)
    ensures a == b
  {
    assert a.JFloat? ==> '.' in Print(env, a) || 'e' in Print(env, a);
    assert b.JFloat? ==> '.' in Print(env, b) || 'e' in Print(env, b);
    if a.JInt? && b.JInt? {
      PrintIntInjective(a.i, b.i);
    }
  }

  lemma PrintPrefixFree(env: Env, a: Json, b: Json, s: string, t: string)
    requires Faithful(env) && Ends(s) && Ends(t)
    requires Print(env, a) + s == Print(env, b) + t
    ensures a == b && s == t
  {
    var x, y := Print(env, a), Print(env, b);
    FirstChar(env, a);
    FirstChar(env, b);
    assert x[0] == (x + s)[0] == (y + t)[0] == y[0];
    if IsNumber(a) {
      NumeralPrefixFree(x, y, s, t);
      NumberInjective(env, a, b);
    } else if a.JString? {
      QuotePrefixFree(a.s, b.s, s, t);
    } else {
      Cancel(x, s, t);
    }
  }

  lemma Regroup(p: string, q: string, c: string, r: string, s: string)
    ensures (p + (q + (c + r))) + s == p + (q + (c + (r + s)))
  {
    assert (p + (q + (c + r))) + s == p + ((q + (c + r)) + s);
    assert (q + (c + r)) + s == q + ((c + r) + s);
    assert (c + r) + s == c + (r + s);
  }

  lemma {:induction false} MembersPrefixFree(
    env: Env, names: seq<string>, v: seq<Json>, w: seq<Json>, s: string, t: string)
    requires Faithful(env) && |names| == |v| == |w|
    requires PrintMembers(env, names, v) + s == PrintMembers(env, names, w) + t
    ensures v == w && s == t
  {
    if names == [] {
      Cancel("}", s, t);
    } else {
      var head, sep := MemberName(names[0]), Separator(names);
      var x, y := PrintMembers(env, names[1..], v[1..]), PrintMembers(env, names[1..], w[1..]);
      Regroup(head, Print(env, v[0]), sep, x, s);
      Regroup(head, Print(env, w[0]), sep, y, t);
      Cancel(head, Print(env, v[0]) + (sep + (x + s)), Print(env, w[0]) + (sep + (y + t)));
      EndsHere(env, names, v, s);
      EndsHere(env, names, w, t);
      PrintPrefixFree(env, v[0], w[0], sep + (x + s), sep + (y + t));
      Cancel(sep, x + s, y + t);
      MembersPrefixFree(env, names[1..], v[1..], w[1..], s, t);
      assert v == [v[0]] + v[1..] && w == [w[0]] + w[1..];
    }
  }

  lemma EndsHere(env: Env, names: seq<string>, v: seq<Json>, s: string)
    requires names != [] && |names| == |v|
    ensures Ends(Separator(names) + (PrintMembers(env, names[1..], v[1..]) + s))
  {
    if |names| == 1 {
      assert PrintMembers(env, names[1..], v[1..]) == "}";
    }
  }

  // ---- what equal texts mean ---------------------------------------------------------

  lemma BlobPrefixFree(env: Env, m: Metrics, n: Metrics, s: string, t: string)
    requires Faithful(env)
    requires CanonicalMetricsBlob(env, m) + s == CanonicalMetricsBlob(env, n) + t
    ensures Fields(env, m) == Fields(env, n) && s == t
  {
    var x, y := PrintMembers(env, FIELDS, Fields(env, m)), PrintMembers(env, FIELDS, Fields(env, n));
    assert ("{" + x) + s == "{" + (x + s) && ("{" + y) + t == "{" + (y + t);
    Cancel("{", x + s, y + t);
    MembersPrefixFree(env, FIELDS, Fields(env, m), Fields(env, n), s, t);
  }

  predicate IsField(f: string) {
    || f == "first_trade_ts" || f == "is_sample" || f == "latest_trade_ts" || f == "markets_traded"
    || f == "sharpe_ratio" || f == "trade_count" || f == "win_rate"
  }

  /** None and False say no more than a missing entry does. */
  predicate Silent(v: Value) {
    v == VNone || v == VBool(false)
  }

  function TextOf(env: Env, v: Value): string
    requires v.VText? || v.VDate?
  {
    if v.VText? then v.s else env.iso(v.at)
  }

  /** Two values are one signal: both silent, both True, equal ints, floats that round alike, or
      equal texts, where a date counts as its text. */
  predicate SameSignal(env: Env, v: Value, w: Value) {
    || (Silent(v) && Silent(w))
    || (v == VBool(true) && w == VBool(true))
    || (v.VInt? && w.VInt? && v.i == w.i)
    || (v.VFloat? && w.VFloat? && env.round9(v.x) == env.round9(w.x))
    || ((v.VText? || v.VDate?) && (w.VText? || w.VDate?) && TextOf(env, v) == TextOf(env, w))
  }

  predicate SameField(env: Env, m: Metrics, n: Metrics, f: string) {
    if f in m && f in n then SameSignal(env, m[f], n[f])
    else (f in m ==> Silent(m[f])) && (f in n ==> Silent(n[f]))
  }

  ghost predicate SameEvidence(env: Env, m: Metrics, n: Metrics) {
    forall f :: IsField(f) ==> SameField(env, m, n, f)
  }

  lemma NormaliseDecides(env: Env, m: Metrics, n: Metrics, f: string)
    ensures Normalise(env, Get(m, f)) == Normalise(env, Get(n, f)) <==> SameField(env, m, n, f)
  {
  }

  lemma FieldsDecide(env: Env, m: Metrics, n: Metrics)
    ensures Fields(env, m) == Fields(env, n) <==> SameEvidence(env, m, n)
  {
    var v, w := Fields(env, m), Fields(env, n);
    assert v == w <==> forall i :: 0 <= i < |FIELDS| ==> v[i] == w[i];
    forall f ensures IsField(f) <==> f in FIELDS {
      assert FIELDS[0] == "first_trade_ts" && FIELDS[1] == "is_sample" && FIELDS[2] == "latest_trade_ts"
          && FIELDS[3] == "markets_traded" && FIELDS[4] == "sharpe_ratio" && FIELDS[5] == "trade_count"
          && FIELDS[6] == "win_rate";
    }
    forall i | 0 <= i < |FIELDS| ensures v[i] == w[i] <==> SameField(env, m, n, FIELDS[i]) {
      NormaliseDecides(env, m, n, FIELDS[i]);
    }
    if SameEvidence(env, m, n) {
      forall i | 0 <= i < |FIELDS| ensures v[i] == w[i] {
        assert IsField(FIELDS[i]);
      }
    }
    if v == w {
      forall f | IsField(f) ensures SameField(env, m, n, f) {
        var i :| 0 <= i < |FIELDS| && FIELDS[i] == f;
      }
    }
  }

  /** Two dictionaries have the same blob exactly when each of the seven fields is the same
      signal in both; insertion order and other entries play no part. */
  lemma BlobDecidesFields(env: Env, m: Metrics, n: Metrics)
    requires Faithful(env)
    ensures CanonicalMetricsBlob(env, m) == CanonicalMetricsBlob(env, n) <==> SameEvidence(env, m, n)
  {
    FieldsDecide(env, m, n);
    if CanonicalMetricsBlob(env, m) == CanonicalMetricsBlob(env, n) {
      BlobPrefixFree(env, m, n, "", "");
    }
  }

  lemma KeyTailDecides(a: string, u: string, b: string, v: string)
    requires KeyTail(a, u) == KeyTail(b, v)
    ensures a == b && u == v
  {
    var x := "," + (MemberName("wallet") + (Quote(a) + "}"));
    var y := "," + (MemberName("wallet") + (Quote(b) + "}"));
    Cancel(",", MemberName("v") + (Quote(u) + x), MemberName("v") + (Quote(v) + y));
    Cancel(MemberName("v"), Quote(u) + x, Quote(v) + y);
    QuotePrefixFree(u, v, x, y);
    Cancel(",", MemberName("wallet") + (Quote(a) + "}"), MemberName("wallet") + (Quote(b) + "}"));
    Cancel(MemberName("wallet"), Quote(a) + "}", Quote(b) + "}");
    QuotePrefixFree(a, b, "}", "}");
  }

  /** The hashed text decides wallet, formula version and evidence, and is decided by them. */
  lemma KeyTextDecides(env: Env, a: string, m: Metrics, u: string, b: string, n: Metrics, v: string)
    requires Faithful(env)
    ensures KeyText(env, a, m, u) == KeyText(env, b, n, v)
            <==> a == b && u == v && SameEvidence(env, m, n)
  {
    FieldsDecide(env, m, n);
    if KeyText(env, a, m, u) == KeyText(env, b, n, v) {
      var x := CanonicalMetricsBlob(env, m) + KeyTail(a, u);
      var y := CanonicalMetricsBlob(env, n) + KeyTail(b, v);
      Cancel("{", MemberName("metrics") + x, MemberName("metrics") + y);
      Cancel(MemberName("metrics"), x, y);
      BlobPrefixFree(env, m, n, KeyTail(a, u), KeyTail(b, v));
      KeyTailDecides(a, u, b, v);
    }
  }

  // ---- the texts themselves ---------------------------------------------------------------------

  /** The escapes that json.dumps prints: the short ones, code units below and above printable
      ASCII, and a surrogate pair. */
  lemma EscapesAre()
    ensures EscapeChar('"') == "\\\"" && EscapeChar('\\') == "\\\\" && EscapeChar('\n') == "\\n"
    ensures EscapeChar('\r') == "\\r" && EscapeChar('\t') == "\\t"
    ensures EscapeChar('\U{8}') == "\\b" && EscapeChar('\U{c}') == "\\f"
    ensures EscapeChar(' ') == " " && EscapeChar('~') == "~"
  {
  }

  lemma CodeUnitsAre()
    ensures EscapeChar('\U{1f}') == "\\u001f" && EscapeChar('\U{7f}') == "\\u007f"
    ensures EscapeChar('\U{abcd}') == "\\uabcd"
  {
    assert Hex4(0x1f) == "001f" && Hex4(0x7f) == "007f" && Hex4(0xabcd) == "abcd";
  }

  lemma SupplementaryPair()
    ensures EscapeChar('\U{1f600}') == "\\ud83d\\ude00"
  {
    assert Hex4(0xd83d) == "d83d" && Hex4(0xde00) == "de00";
    assert (0x1f600 - 0x10000) / 0x400 == 0x3d && (0x1f600 - 0x10000) % 0x400 == 0x200;
    var c := '\U{1f600}';
    assert c as int == 0x1f600;
    assert EscapeChar(c) == "\\u" + Hex4(0xd83d) + "\\u" + Hex4(0xde00);
  }

  /** A text is escaped character by character. */
  lemma {:induction false} EscapeConcat(s: string, t: string)
    ensures Escape(s + t) == Escape(s) + Escape(t)
  {
    if s == "" {
      assert s + t == t;
    } else {
      calc {
        Escape(s + t);
        { assert (s + t)[0] == s[0] && (s + t)[1..] == s[1..] + t; }
        EscapeChar(s[0]) + Escape(s[1..] + t);
        { EscapeConcat(s[1..], t); }
        EscapeChar(s[0]) + (Escape(s[1..]) + Escape(t));
        { Grouped(EscapeChar(s[0]), Escape(s[1..]), Escape(t)); }
        (EscapeChar(s[0]) + Escape(s[1..])) + Escape(t);
        Escape(s) + Escape(t);
      }
    }
  }

  lemma Grouped(a: string, b: string, c: string)
    ensures a + (b + c) == (a + b) + c
  {
  }

  /** What is printed for a value. */
  lemma PrintedValue(env: Env, v: Value)
    ensures Silent(v) ==> Print(env, Normalise(env, v)) == "null"
    ensures v == VBool(true) ==> Print(env, Normalise(env, v)) == "true"
    ensures v.VInt? ==> Print(env, Normalise(env, v)) == PrintInt(v.i)
    ensures v.VFloat? ==> Print(env, Normalise(env, v)) == env.repr(env.round9(v.x))
    ensures v.VText? || v.VDate? ==> Print(env, Normalise(env, v)) == "\"" + Escape(TextOf(env, v)) + "\""
    ensures PrintInt(0) == "0" && PrintInt(12) == "12" && PrintInt(-305) == "-305"
  {
    assert Decimal(3) == "3" && Decimal(30) == "30" && Decimal(305) == "305";
  }

  function Printed(env: Env, m: Metrics, field: string): string {
    Print(env, Normalise(env, Get(m, field)))
  }

  /** The text of the object's members. */
  function Layout(first: string, sample: string, latest: string, markets: string, sharpe: string, count: string,
                  rate: string): string
  {
    "{" + ("\"first_trade_ts\":" + (first + ("," + ("\"is_sample\":" + (sample + ("," + ("\"latest_trade_ts\":"
    + (latest + ("," + ("\"markets_traded\":" + (markets + ("," + ("\"sharpe_ratio\":" + (sharpe + ("," + ("\"trade_count\":"
    + (count + ("," + ("\"win_rate\":" + (rate + ("" + "}")))))))))))))))))))))
  }

  lemma EarlierNamesAre()
    ensures MemberName("first_trade_ts") == "\"first_trade_ts\":" && MemberName("is_sample") == "\"is_sample\":"
    ensures MemberName("latest_trade_ts") == "\"latest_trade_ts\":"
  {
  }

  lemma LaterNamesAre()
    ensures MemberName("markets_traded") == "\"markets_traded\":" && MemberName("sharpe_ratio") == "\"sharpe_ratio\":"
    ensures MemberName("trade_count") == "\"trade_count\":" && MemberName("win_rate") == "\"win_rate\":"
  {
  }

  lemma OuterNamesAre()
    ensures MemberName("metrics") == "\"metrics\":" && MemberName("v") == "\"v\":" && MemberName("wallet") == "\"wallet\":"
  {
  }

  lemma MembersFrom(env: Env, m: Metrics, i: nat)
    requires i < |FIELDS|
    ensures PrintMembers(env, FIELDS[i..], Fields(env, m)[i..])
            == MemberName(FIELDS[i])
               + (Printed(env, m, FIELDS[i])
                  + (if i == |FIELDS| - 1 then "" + "}"
                     else "," + PrintMembers(env, FIELDS[i + 1..], Fields(env, m)[i + 1..])))
  {
    assert FIELDS[i..][1..] == FIELDS[i + 1..] && Fields(env, m)[i..][1..] == Fields(env, m)[i + 1..];
    if i == |FIELDS| - 1 {
      assert PrintMembers(env, FIELDS[i + 1..], Fields(env, m)[i + 1..]) == "}";
    }
  }

  /** The blob is one JSON object with the seven fields in alphabetical order. */
  lemma BlobLayout(env: Env, m: Metrics)
    ensures CanonicalMetricsBlob(env, m)
            == Layout(Printed(env, m, "first_trade_ts"), Printed(env, m, "is_sample"), Printed(env, m, "latest_trade_ts"),
                      Printed(env, m, "markets_traded"), Printed(env, m, "sharpe_ratio"), Printed(env, m, "trade_count"),
                      Printed(env, m, "win_rate"))
  {
    EarlierNamesAre();
    LaterNamesAre();
    MembersFrom(env, m, 6);
    MembersFrom(env, m, 5);
    MembersFrom(env, m, 4);
    MembersFrom(env, m, 3);
    MembersFrom(env, m, 2);
    MembersFrom(env, m, 1);
    MembersFrom(env, m, 0);
    assert FIELDS[0..] == FIELDS && Fields(env, m)[0..] == Fields(env, m);
  }

  /** The hashed text is a JSON object of the blob, the version and the wallet. */
  lemma KeyLayout(env: Env, address: string, m: Metrics, version: string)
    ensures KeyText(env, address, m, version)
            == "{" + ("\"metrics\":" + (CanonicalMetricsBlob(env, m)
               + ("," + ("\"v\":" + (Quote(version) + ("," + ("\"wallet\":" + (Quote(address) + "}"))))))))
    ensures Quote(address) == "\"" + Escape(address) + "\""
  {
    OuterNamesAre();
  }
}
