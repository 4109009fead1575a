/** Wallet identity: the canonical form of an address, the SQL fragment that matches
    stored variants of it, and the sentinel test used by the ingest loop. */
module Identity {
  import opened Basics

  /** The character sets that the three strip operations remove. */
  datatype Blanks = SqlTrim | CanonicalStrip | PythonStrip {
    predicate Has(c: char) {
      || c == ' ' || '\t' <= c <= '\r'
      || (CanonicalStrip? && c == '\0')
      || (PythonStrip? && PythonOnly(c))
    }

    /** White space that str.strip() removes beyond the six ASCII characters. */
    static predicate PythonOnly(c: char) {
      || '\U{1c}' <= c <= '\U{1f}' || c == '\U{85}' || c == '\U{a0}' || c == '\U{1680}'
      || '\U{2000}' <= c <= '\U{200a}' || '\U{2028}' <= c <= '\U{2029}'
      || c == '\U{202f}' || c == '\U{205f}' || c == '\U{3000}'
    }
  }

  predicate IsSentinelWord(s: string) {
    || s == "unknown" || s == "anonymous" || s == "missing" || s == "0x" || s == "0x0"
    || s == "0x0000000000000000000000000000000000000000"
  }

  function LowerChar(c: char): char {
    if 'A' <= c <= 'Z' then c - 'A' + 'a' else c
  }

  function Lower(s: string): string {
    seq(|s|, i requires 0 <= i < |s| => LowerChar(s[i]))
  }

  /** How many leading, and how many trailing, characters a strip removes. */
  function Leading(s: string, blanks: Blanks): (n: nat)
    ensures n <= |s|
  {
    if s != "" && blanks.Has(s[0]) then 1 + Leading(s[1..], blanks) else 0
  }

  function Trailing(s: string, blanks: Blanks): (n: nat)
    ensures n <= |s|
  {
    if s != "" && blanks.Has(s[|s| - 1]) then 1 + Trailing(s[..|s| - 1], blanks) else 0
  }

  function Strip(s: string, blanks: Blanks): string {
    var t := s[Leading(s, blanks)..];
    t[..|t| - Trailing(t, blanks)]
  }

  lemma {:induction false} LeadingStops(s: string, blanks: Blanks)
    ensures var n := Leading(s, blanks); n < |s| ==> !blanks.Has(s[n])
  {
    if s != "" && blanks.Has(s[0]) {
      LeadingStops(s[1..], blanks);
    }
  }

  lemma {:induction false} TrailingStops(s: string, blanks: Blanks)
    ensures var n := Trailing(s, blanks); n < |s| ==> !blanks.Has(s[|s| - 1 - n])
  {
    if s != "" && blanks.Has(s[|s| - 1]) {
      TrailingStops(s[..|s| - 1], blanks);
    }
  }

  lemma StripEnds(s: string, blanks: Blanks)
    ensures var r := Strip(s, blanks);
            r != "" ==> !blanks.Has(r[0]) && !blanks.Has(r[|r| - 1])
  {
    var t := s[Leading(s, blanks)..];
    LeadingStops(s, blanks);
    TrailingStops(t, blanks);
  }

  lemma StripOfStripped(s: string, blanks: Blanks)
    requires s != "" ==> !blanks.Has(s[0]) && !blanks.Has(s[|s| - 1])
    ensures Strip(s, blanks) == s
  {
    assert Leading(s, blanks) == 0 && s[0..] == s;
    assert Trailing(s, blanks) == 0;
  }

  function CanonicalWalletAddress(value: Option<string>): (r: Option<string>) {
    match value
    case None => None
    case Some(text) =>
      var lowered := Lower(Strip(text, CanonicalStrip));
      if lowered == "" || IsSentinelWord(lowered) then None else Some(lowered)
  }

  /** LOWER(TRIM(column, ...)) as the metric queries apply it to stored addresses. */
  function SqlNormalized(text: string): string {
    Lower(Strip(text, SqlTrim))
  }

  predicate IsSentinelTraderAddress(value: Option<string>) {
    match value
    case None => true
    case Some(text) =>
      var stripped := Strip(text, PythonStrip);
      stripped == "" || IsSentinelWord(Lower(stripped))
  }

  predicate IsCanonical(address: string) {
    CanonicalWalletAddress(Some(address)) == Some(address)
  }

  /** Canonicalisation is a projection, and its results are matched exactly by the SQL
      fragment: discovery, the wallets table and the metric queries agree on identity. */
  lemma CanonicalIsStable(value: Option<string>)
    requires CanonicalWalletAddress(value).Some?
    ensures var a := CanonicalWalletAddress(value).value;
            IsCanonical(a) && SqlNormalized(a) == a && Lower(a) == a
  {
    var stripped := Strip(value.value, CanonicalStrip);
    var a := Lower(stripped);
    StripEnds(value.value, CanonicalStrip);
    assert a[0] == LowerChar(stripped[0]) && a[|a| - 1] == LowerChar(stripped[|a| - 1]);
    StripOfStripped(a, CanonicalStrip);
    StripOfStripped(a, SqlTrim);
    assert Lower(a) == a;
  }

  lemma CanonicalMatchesItself(a: string)
    requires IsCanonical(a)
    ensures SqlNormalized(a) == a
  {
    CanonicalIsStable(Some(a));
  }

  // ---- what the functions mean, in terms of the texts -----------------------------------------

  /** The characters that each strip removes, listed. */
  lemma BlanksAre(c: char)
    ensures SqlTrim.Has(c) <==> c in {' ', '\t', '\n', '\U{b}', '\U{c}', '\r'}
    ensures CanonicalStrip.Has(c) <==> c in {' ', '\t', '\n', '\U{b}', '\U{c}', '\r', '\0'}
    ensures PythonStrip.Has(c)
            <==> || c in {' ', '\t', '\n', '\U{b}', '\U{c}', '\r', '\U{1c}', '\U{1d}', '\U{1e}', '\U{1f}'}
                 || c in {'\U{85}', '\U{a0}', '\U{1680}', '\U{2028}', '\U{2029}', '\U{202f}', '\U{205f}', '\U{3000}'}
                 || '\U{2000}' <= c <= '\U{200a}'
  {
  }

  /** core is s without its leading and trailing blanks: they are all gone, and nothing else is. */
  ghost predicate Trimmed(s: string, core: string, blanks: Blanks) {
    && (core != "" ==> !blanks.Has(core[0]) && !blanks.Has(core[|core| - 1]))
    && exists i, j :: Cut(s, core, i, j, blanks)
  }

  ghost predicate Cut(s: string, core: string, i: nat, j: nat, blanks: Blanks) {
    && i <= j <= |s| && core == s[i..j]
    && forall k :: 0 <= k < i || j <= k < |s| ==> blanks.Has(s[k])
  }

  lemma {:induction false} LeadingAreBlank(s: string, blanks: Blanks)
    ensures forall k :: 0 <= k < Leading(s, blanks) ==> blanks.Has(s[k])
  {
    if s != "" && blanks.Has(s[0]) {
      LeadingAreBlank(s[1..], blanks);
      forall k | 0 <= k < Leading(s, blanks) ensures blanks.Has(s[k]) {
        assert k > 0 ==> s[k] == s[1..][k - 1];
      }
    }
  }

  lemma {:induction false} TrailingAreBlank(s: string, blanks: Blanks)
    ensures forall k :: |s| - Trailing(s, blanks) <= k < |s| ==> blanks.Has(s[k])
  {
    if s != "" && blanks.Has(s[|s| - 1]) {
      TrailingAreBlank(s[..|s| - 1], blanks);
      forall k | |s| - Trailing(s, blanks) <= k < |s| ensures blanks.Has(s[k]) {
        assert k < |s| - 1 ==> s[k] == s[..|s| - 1][k];
      }
    }
  }

  lemma StripTrims(s: string, blanks: Blanks)
    ensures Trimmed(s, Strip(s, blanks), blanks)
  {
    var n := Leading(s, blanks);
    var t := s[n..];
    StripEnds(s, blanks);
    LeadingAreBlank(s, blanks);
    TrailingAreBlank(t, blanks);
    var j := n + |t| - Trailing(t, blanks);
    forall k | 0 <= k < n || j <= k < |s| ensures blanks.Has(s[k]) {
      assert k >= n ==> s[k] == t[k - n];
    }
    assert Cut(s, Strip(s, blanks), n, j, blanks);
  }

  lemma CutsAgree(s: string, a: string, i: nat, j: nat, b: string, k: nat, l: nat, blanks: Blanks)
    requires Cut(s, a, i, j, blanks) && Cut(s, b, k, l, blanks)
    requires a != "" ==> !blanks.Has(a[0]) && !blanks.Has(a[|a| - 1])
    requires b != "" ==> !blanks.Has(b[0]) && !blanks.Has(b[|b| - 1])
    ensures a == b
  {
    if a != "" {
      assert s[i] == a[0] && s[j - 1] == a[|a| - 1];
      assert b != "";
      assert s[k] == b[0] && s[l - 1] == b[|b| - 1];
    }
  }

  /** Strip is the one way to do that. */
  lemma StripExactlyWhen(s: string, core: string, blanks: Blanks)
    ensures Strip(s, blanks) == core <==> Trimmed(s, core, blanks)
  {
    StripTrims(s, blanks);
    if Trimmed(s, core, blanks) {
      var i, j :| Cut(s, core, i, j, blanks);
      var k, l :| Cut(s, Strip(s, blanks), k, l, blanks);
      CutsAgree(s, core, i, j, Strip(s, blanks), k, l, blanks);
    }
  }

  /** low spells text in lower case. */
  ghost predicate Lowered(text: string, low: string) {
    |low| == |text|
    && forall i :: 0 <= i < |text| ==>
         if 'A' <= text[i] <= 'Z' then low[i] as int == text[i] as int + 32 else low[i] == text[i]
  }

  lemma LowerExactlyWhen(text: string, low: string)
    ensures Lower(text) == low <==> Lowered(text, low)
  {
    if Lowered(text, low) {
      forall i | 0 <= i < |text| ensures Lower(text)[i] == low[i] {
        assert 'A' <= text[i] <= 'Z' ==> LowerChar(text[i]) as int == text[i] as int + 32;
      }
    }
  }

  ghost predicate Named(word: string) {
    word in {"unknown", "anonymous", "missing", "0x", "0x0", "0x0000000000000000000000000000000000000000"}
  }

  /** a is the canonical address of the text: the text without surrounding blanks and NULs, in
      lower case, when that is neither empty nor a sentinel word. */
  ghost predicate CanonicalOf(text: string, a: string) {
    a != "" && !Named(a) && exists core :: Trimmed(text, core, CanonicalStrip) && Lowered(core, a)
  }

  lemma CanonicalExactlyWhen(text: string, a: string)
    ensures CanonicalWalletAddress(Some(text)) == Some(a) <==> CanonicalOf(text, a)
    ensures CanonicalWalletAddress(None) == None
  {
    var core := Strip(text, CanonicalStrip);
    StripExactlyWhen(text, core, CanonicalStrip);
    LowerExactlyWhen(core, Lower(core));
    forall c | Trimmed(text, c, CanonicalStrip) ensures c == core {
      StripExactlyWhen(text, c, CanonicalStrip);
    }
    LowerExactlyWhen(core, a);
  }

  /** A stored address is matched by a query for a exactly when a is its text without surrounding
      blanks, in lower case. */
  lemma SqlMatchesExactlyWhen(text: string, a: string)
    ensures SqlNormalized(text) == a <==> exists core :: Trimmed(text, core, SqlTrim) && Lowered(core, a)
  {
    var core := Strip(text, SqlTrim);
    StripExactlyWhen(text, core, SqlTrim);
    forall c | Trimmed(text, c, SqlTrim) ensures c == core {
      StripExactlyWhen(text, c, SqlTrim);
    }
    LowerExactlyWhen(core, a);
  }

  /** The ingest loop takes an address for a sentinel exactly when it is missing, or blank, or a
      sentinel word in any case once str.strip has removed what surrounds it. */
  lemma SentinelExactlyWhen(text: string)
    ensures IsSentinelTraderAddress(None)
    ensures IsSentinelTraderAddress(Some(text))
            <==> exists core, low :: Trimmed(text, core, PythonStrip) && Lowered(core, low) && (low == "" || Named(low))
  {
    var core := Strip(text, PythonStrip);
    StripExactlyWhen(text, core, PythonStrip);
    LowerExactlyWhen(core, Lower(core));
    forall c, low | Trimmed(text, c, PythonStrip) && Lowered(c, low) ensures c == core && low == Lower(core) {
      StripExactlyWhen(text, c, PythonStrip);
      LowerExactlyWhen(c, low);
    }
  }
}
