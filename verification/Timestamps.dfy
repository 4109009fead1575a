/** UTC timestamp texts. The slice compares source_trades.timestamp with
    source_data_timestamp as strings, after turning a final Z into +00:00; this is the
    ordering property of section 5.1 of RFC 3339, with the optional fraction isoformat
    prints. It also takes MAX over the raw texts, before any normalisation. */
module Timestamps {
  import opened Basics
  import Canonical

  /** A UTC instant to the microsecond, and whether its text ends in Z or in +00:00. */
  datatype Stamp = Stamp(year: nat, month: nat, day: nat, hour: nat, minute: nat, second: nat, micro: nat, zulu: bool)

  predicate WellFormed(t: Stamp) {
    t.year < 10000 && t.month < 100 && t.day < 100 && t.hour < 100 && t.minute < 100 && t.second < 100
    && t.micro < 1000000
  }

  function Parts(t: Stamp): seq<nat> {
    [t.year, t.month, t.day, t.hour, t.minute, t.second]
  }

  const SEPARATORS := ["-", "-", "T", ":", ":", ""]

  function Pow10(w: nat): nat {
    if w == 0 then 1 else 10 * Pow10(w - 1)
  }

  /** n with leading zeros, w characters wide. */
  function Digits(n: nat, w: nat): string
    requires n < Pow10(w)
  {
    if w == 0 then "" else Digits(n / 10, w - 1) + [Canonical.Digit(n % 10)]
  }

  function Width(i: nat): nat { if i == 0 then 4 else 2 }

  ghost predicate Fits(parts: seq<nat>, i: nat) {
    forall k :: 0 <= k < |parts| ==> parts[k] < Pow10(Width(i + k))
  }

  /** The parts from the i-th one on, each followed by its separator, then the tail. */
  function Render(parts: seq<nat>, i: nat, tail: string): string
    requires i + |parts| <= 6 && Fits(parts, i)
  {
    if parts == [] then tail
    else
      assert Fits(parts[1..], i + 1) by {
        forall k | 0 <= k < |parts| - 1 ensures parts[1..][k] < Pow10(Width(i + 1 + k)) {
          assert parts[1..][k] == parts[k + 1];
        }
      }
      Digits(parts[0], Width(i)) + (SEPARATORS[i] + Render(parts[1..], i + 1, tail))
  }

  function Fraction(micro: nat): string
    requires micro < 1000000
  {
    assert Pow10(6) == 1000000;
    if micro == 0 then "" else "." + Digits(micro, 6)
  }

  function Tail(t: Stamp, zone: string): string
    requires WellFormed(t)
  {
    Fraction(t.micro) + zone
  }

  lemma PartsFit(t: Stamp)
    requires WellFormed(t)
    ensures Fits(Parts(t), 0)
  {
    assert Pow10(4) == 10000 && Pow10(2) == 100;
  }

  function TextWith(t: Stamp, zone: string): string
    requires WellFormed(t)
  {
    PartsFit(t);
    Render(Parts(t), 0, Tail(t, zone))
  }

  /** The stored text. */
  function Text(t: Stamp): string
    requires WellFormed(t)
  {
    TextWith(t, if t.zulu then "Z" else "+00:00")
  }

  /** _iso_z_to_plus. */
  function IsoZToPlus(text: string): string {
    if text != "" && text[|text| - 1] == 'Z' then text[..|text| - 1] + "+00:00" else text
  }

  // ---- chronology ----------------------------------------------------------------------

  predicate LexBefore(a: seq<nat>, b: seq<nat>)
    requires |a| == |b|
  {
    a != [] && (a[0] < b[0] || (a[0] == b[0] && LexBefore(a[1..], b[1..])))
  }

  /** a is an earlier instant than b. */
  predicate Before(a: Stamp, b: Stamp) {
    LexBefore(Parts(a), Parts(b)) || (Parts(a) == Parts(b) && a.micro < b.micro)
  }

  predicate SameInstant(a: Stamp, b: Stamp) {
    Parts(a) == Parts(b) && a.micro == b.micro
  }

  lemma {:induction false} LexTotal(a: seq<nat>, b: seq<nat>)
    requires |a| == |b|
    ensures LexBefore(a, b) || a == b || LexBefore(b, a)
  {
    if a != [] && a[0] == b[0] {
      LexTotal(a[1..], b[1..]);
      assert a == [a[0]] + a[1..] && b == [b[0]] + b[1..];
    }
  }

  lemma {:induction false} LexIrreflexive(a: seq<nat>)
    ensures !LexBefore(a, a)
  {
    if a != [] {
      LexIrreflexive(a[1..]);
    }
  }

  // ---- fixed-width numerals sort like numbers ----------------------------------------------

  lemma LessHead(c: char, d: char, s: string, t: string)
    requires c < d
    ensures Less([c] + s, [d] + t)
  {
  }

  lemma {:induction false} DigitsLess(m: nat, n: nat, w: nat, s: string, t: string)
    requires m < n < Pow10(w)
    ensures Less(Digits(m, w) + s, Digits(n, w) + t)
  {
    var c, d := Canonical.Digit(m % 10), Canonical.Digit(n % 10);
    assert Digits(m, w) + s == Digits(m / 10, w - 1) + ([c] + s);
    assert Digits(n, w) + t == Digits(n / 10, w - 1) + ([d] + t);
    if m / 10 < n / 10 {
      DigitsLess(m / 10, n / 10, w - 1, [c] + s, [d] + t);
    } else {
      assert m % 10 < n % 10;
      assert c as int < d as int;
      LessHead(c, d, s, t);
      LessAfterPrefix(Digits(m / 10, w - 1), [c] + s, [d] + t);
    }
  }

  lemma {:induction false} RenderLess(a: seq<nat>, b: seq<nat>, i: nat, s: string, t: string)
    requires |a| == |b| && i + |a| <= 6 && Fits(a, i) && Fits(b, i)
    ensures LexBefore(a, b) ==> Less(Render(a, i, s), Render(b, i, t))
    ensures a == b ==> (Less(Render(a, i, s), Render(b, i, t)) <==> Less(s, t))
  {
    if a != [] {
      var w := Width(i);
      assert Fits(a[1..], i + 1) && Fits(b[1..], i + 1) by {
        forall k | 0 <= k < |a| - 1
          ensures a[1..][k] < Pow10(Width(i + 1 + k)) && b[1..][k] < Pow10(Width(i + 1 + k))
        {
          assert a[1..][k] == a[k + 1] && b[1..][k] == b[k + 1];
        }
      }
      var x, y := Render(a[1..], i + 1, s), Render(b[1..], i + 1, t);
      if a[0] < b[0] {
        DigitsLess(a[0], b[0], w, SEPARATORS[i] + x, SEPARATORS[i] + y);
      } else if a[0] == b[0] {
        RenderLess(a[1..], b[1..], i + 1, s, t);
        LessAfterPrefix(SEPARATORS[i], x, y);
        LessAfterPrefix(Digits(a[0], w), SEPARATORS[i] + x, SEPARATORS[i] + y);
      }
    }
  }

  // ---- the normalised comparison -------------------------------------------------------------

  lemma {:induction false} RenderAppend(parts: seq<nat>, i: nat, x: string, y: string)
    requires i + |parts| <= 6 && Fits(parts, i)
    ensures Render(parts, i, x + y) == Render(parts, i, x) + y
  {
    if parts != [] {
      assert Fits(parts[1..], i + 1) by {
        forall k | 0 <= k < |parts| - 1 ensures parts[1..][k] < Pow10(Width(i + 1 + k)) {
          assert parts[1..][k] == parts[k + 1];
        }
      }
      RenderAppend(parts[1..], i + 1, x, y);
      Regroup(Digits(parts[0], Width(i)), SEPARATORS[i], Render(parts[1..], i + 1, x), y);
    }
  }

  lemma Regroup(d: string, s: string, r: string, y: string)
    ensures (d + (s + r)) + y == d + (s + (r + y))
  {
    assert (d + (s + r)) + y == d + ((s + r) + y);
    assert (s + r) + y == s + (r + y);
  }

  /** Normalisation gives every stamp the text it would have with +00:00. */
  lemma NormalisedText(t: Stamp)
    requires WellFormed(t)
    ensures IsoZToPlus(Text(t)) == TextWith(t, "+00:00")
  {
    PartsFit(t);
    var zone := if t.zulu then "Z" else "+00:00";
    RenderAppend(Parts(t), 0, Fraction(t.micro), zone);
    RenderAppend(Parts(t), 0, Fraction(t.micro), "+00:00");
    var body := Render(Parts(t), 0, Fraction(t.micro));
    assert Text(t) == body + zone && TextWith(t, "+00:00") == body + "+00:00";
    assert (body + zone)[|body + zone| - 1] == zone[|zone| - 1];
    assert (body + "Z")[..|body|] == body;
  }

  /** A later fraction of the same second sorts later, unless the earlier stamp has no
      fraction and a zone that sorts after the decimal point. */
  lemma FractionThenZone(n: nat, zone: string)
    requires 0 < n < 1000000
    ensures n < Pow10(6) && Fraction(n) + zone == "." + (Digits(n, 6) + zone)
  {
    assert Pow10(6) == 1000000;
  }

  lemma TailLess(a: nat, b: nat, zoneA: string, zoneB: string)
    requires a < b < 1000000
    requires a > 0 || (zoneA != "" && zoneA[0] < '.')
    ensures Less(Fraction(a) + zoneA, Fraction(b) + zoneB)
  {
    FractionThenZone(b, zoneB);
    if a > 0 {
      FractionThenZone(a, zoneA);
      DigitsLess(a, b, 6, zoneA, zoneB);
      LessAfterPrefix(".", Digits(a, 6) + zoneA, Digits(b, 6) + zoneB);
    } else {
      assert Fraction(a) + zoneA == zoneA;
      assert zoneA[0] < (Fraction(b) + zoneB)[0];
    }
  }

  lemma EarlierTextIsLess(a: Stamp, b: Stamp)
    requires WellFormed(a) && WellFormed(b) && Before(a, b)
    ensures Less(TextWith(a, "+00:00"), TextWith(b, "+00:00"))
  {
    PartsFit(a);
    PartsFit(b);
    RenderLess(Parts(a), Parts(b), 0, Tail(a, "+00:00"), Tail(b, "+00:00"));
    if Parts(a) == Parts(b) {
      LexIrreflexive(Parts(a));
      TailLess(a.micro, b.micro, "+00:00", "+00:00");
    }
  }

  lemma BeforeTotal(a: Stamp, b: Stamp)
    ensures Before(a, b) || SameInstant(a, b) || Before(b, a)
  {
    LexTotal(Parts(a), Parts(b));
  }

  /** On normalised texts, string order is chronological order and equal texts are equal
      instants, whichever of Z and +00:00 the rows were stored with. */
  lemma NormalisedOrderIsChronological(a: Stamp, b: Stamp)
    requires WellFormed(a) && WellFormed(b)
    ensures Less(IsoZToPlus(Text(a)), IsoZToPlus(Text(b))) <==> Before(a, b)
    ensures IsoZToPlus(Text(a)) == IsoZToPlus(Text(b)) <==> SameInstant(a, b)
  {
    NormalisedText(a);
    NormalisedText(b);
    var x, y := TextWith(a, "+00:00"), TextWith(b, "+00:00");
    BeforeTotal(a, b);
    LessIrreflexive(x);
    if Before(a, b) {
      EarlierTextIsLess(a, b);
    } else if Before(b, a) {
      EarlierTextIsLess(b, a);
      if Less(x, y) { LessTransitive(x, y, x); }
    }
  }

  // ---- MAX over the raw texts -----------------------------------------------------------------

  ghost predicate AllWellFormed(ss: seq<Stamp>) {
    forall t :: t in ss ==> WellFormed(t)
  }

  /** m's text is a maximum of the stored texts: what SQL's MAX(timestamp) returns. */
  ghost predicate RawMaximum(m: Stamp, ss: seq<Stamp>)
    requires AllWellFormed(ss)
  {
    m in ss && forall t :: t in ss ==> !Less(Text(m), Text(t))
  }

  ghost predicate Newest(m: Stamp, ss: seq<Stamp>) {
    m in ss && forall t :: t in ss ==> !Before(m, t)
  }

  ghost predicate InNewestSecond(p: Stamp, ss: seq<Stamp>) {
    forall t :: t in ss ==> !LexBefore(Parts(p), Parts(t))
  }

  /** In the newest second there is a stamp without fraction that ends in Z, and a stamp with
      a fraction: 'Z' sorts after '.', so the older of the two wins the raw comparison. */
  ghost predicate ZuluShadowsFraction(ss: seq<Stamp>) {
    exists p, f :: p in ss && f in ss && Shadows(p, f) && InNewestSecond(p, ss)
  }

  predicate Shadows(p: Stamp, f: Stamp) {
    p.zulu && p.micro == 0 && f.micro > 0 && Parts(p) == Parts(f)
  }

  lemma RawOrder(a: Stamp, b: Stamp)
    requires WellFormed(a) && WellFormed(b)
    ensures LexBefore(Parts(a), Parts(b)) ==> Less(Text(a), Text(b))
    ensures Parts(a) == Parts(b) && a.micro < b.micro && !Shadows(a, b) ==> Less(Text(a), Text(b))
    ensures Shadows(a, b) ==> Less(Text(b), Text(a))
  {
    PartsFit(a);
    PartsFit(b);
    var zoneA, zoneB := if a.zulu then "Z" else "+00:00", if b.zulu then "Z" else "+00:00";
    RenderLess(Parts(a), Parts(b), 0, Tail(a, zoneA), Tail(b, zoneB));
    RenderLess(Parts(b), Parts(a), 0, Tail(b, zoneB), Tail(a, zoneA));
    if Parts(a) == Parts(b) && a.micro < b.micro && !Shadows(a, b) {
      TailLess(a.micro, b.micro, zoneA, zoneB);
    }
    if Shadows(a, b) {
      assert Tail(a, zoneA) == "Z";
      assert Tail(b, zoneB)[0] == '.';
    }
  }

  /** The raw maximum is a newest stamp exactly when no such shadowing pair exists. */
  lemma RawMaximumIsNewest(m: Stamp, ss: seq<Stamp>)
    requires AllWellFormed(ss) && RawMaximum(m, ss)
    ensures Newest(m, ss) <==> !ZuluShadowsFraction(ss)
  {
    forall t | t in ss ensures !LexBefore(Parts(m), Parts(t)) {
      RawOrder(m, t);
    }
    if t :| t in ss && Before(m, t) {
      RawOrder(m, t);
      assert Shadows(m, t) && InNewestSecond(m, ss);
    }
    if p, f :| p in ss && f in ss && Shadows(p, f) && InNewestSecond(p, ss) {
      LexTotal(Parts(m), Parts(p));
      RawOrder(p, m);
      assert m.micro == 0;
      assert Before(m, f);
    }
  }

  /** Stamps that isoformat wrote are never shadowed: none of them ends in Z. All writers of
      both tables use it, so only rows of an earlier writer can be. */
  lemma IsoformatIsUnshadowed(ss: seq<Stamp>)
    requires forall t :: t in ss ==> !t.zulu
    ensures !ZuluShadowsFraction(ss)
  {
  }

  /** The proxy: with unshadowed rows, comparing the two normalised raw maxima never claims a
      newer trade that is not there. It misses one exactly when the stamp that MAX returns, not
      newer than the newest row, shadows a fractional stamp of the same second that is. */
  lemma ProxyComparesInstants(trade: Stamp, trades: seq<Stamp>, row: Stamp, rows: seq<Stamp>)
    requires AllWellFormed(trades) && AllWellFormed(rows)
    requires RawMaximum(trade, trades) && RawMaximum(row, rows) && !ZuluShadowsFraction(rows)
    ensures var claims := Less(IsoZToPlus(Text(row)), IsoZToPlus(Text(trade)));
            var holds := exists t :: t in trades && forall r :: r in rows ==> Before(r, t);
            && (claims ==> holds)
            && ((claims <==> holds) <==> !exists f :: f in trades && Shadows(trade, f) && !Before(row, trade) && Before(row, f))
  {
    RawMaximumIsNewest(trade, trades);
    RawMaximumIsNewest(row, rows);
    NormalisedOrderIsChronological(row, trade);
    NewestRowDecides(trades, row, rows);
    forall t | t in trades && Before(row, t) && !Before(row, trade) ensures Shadows(trade, t) {
      BeforeTotal(t, trade);
      BeforeTransitive(row, t, trade);
      RawOrder(trade, t);
    }
  }

  lemma NewestRowDecides(trades: seq<Stamp>, row: Stamp, rows: seq<Stamp>)
    requires Newest(row, rows)
    ensures (exists t :: t in trades && forall r :: r in rows ==> Before(r, t))
            <==> exists t :: t in trades && Before(row, t)
  {
    if t :| t in trades && Before(row, t) {
      forall r | r in rows ensures Before(r, t) {
        BeforeTotal(r, row);
        BeforeTransitive(r, row, t);
      }
    }
  }

  /** A decision that goes wrong. A wallet was scored at .2 of a second; of its trades in that
      second one is stored without fraction as Z and one at .5. MAX returns the one with Z, so
      the wallet counts as already scored although the trade at .5 is newer than its row. */
  lemma ShadowedMaximum()
    ensures var whole, half, row :=
              Stamp(2026, 1, 1, 0, 0, 0, 0, true), Stamp(2026, 1, 1, 0, 0, 0, 500000, true),
              Stamp(2026, 1, 1, 0, 0, 0, 200000, false);
            && AllWellFormed([whole, half]) && AllWellFormed([row])
            && RawMaximum(whole, [whole, half]) && RawMaximum(row, [row]) && !ZuluShadowsFraction([row])
            && !Less(IsoZToPlus(Text(row)), IsoZToPlus(Text(whole)))
            && Before(row, half)
  {
    var whole, half, row :=
      Stamp(2026, 1, 1, 0, 0, 0, 0, true), Stamp(2026, 1, 1, 0, 0, 0, 500000, true),
      Stamp(2026, 1, 1, 0, 0, 0, 200000, false);
    RawOrder(whole, half);
    LessIrreflexive(Text(whole));
    LessIrreflexive(Text(row));
    if Less(Text(whole), Text(half)) {
      LessTransitive(Text(whole), Text(half), Text(whole));
    }
    LexIrreflexive(Parts(whole));
    NormalisedOrderIsChronological(row, whole);
    IsoformatIsUnshadowed([row]);
  }

  lemma {:induction false} LexTransitive(a: seq<nat>, b: seq<nat>, c: seq<nat>)
    requires |a| == |b| == |c| && LexBefore(a, b) && LexBefore(b, c)
    ensures LexBefore(a, c)
  {
    if a[0] == b[0] && b[0] == c[0] {
      LexTransitive(a[1..], b[1..], c[1..]);
    }
  }

  lemma BeforeTransitive(a: Stamp, b: Stamp, c: Stamp)
    ensures Before(a, b) && Before(b, c) ==> Before(a, c)
    ensures SameInstant(a, b) && Before(b, c) ==> Before(a, c)
    ensures Before(a, b) && SameInstant(b, c) ==> Before(a, c)
  {
    if LexBefore(Parts(a), Parts(b)) && LexBefore(Parts(b), Parts(c)) {
      LexTransitive(Parts(a), Parts(b), Parts(c));
    }
  }
}
