/** Vocabulary shared by every module: optional values, prefixes, filters, and the
    code-point order that the scripts' sorted() calls use on strings. */
module Basics {

  datatype Option<+T> = None | Some(value: T)

  function Min(a: int, b: int): int { if a <= b then a else b }

  function Max(a: int, b: int): int { if a <= b then b else a }

  /** The first n elements of s, or all of s when it is shorter. */
  function Take<T>(n: nat, s: seq<T>): seq<T> {
    if n <= |s| then s[..n] else s
  }

  /** The elements of s that belong to keep, in the order of s. */
  function Within<T(==,!new)>(s: seq<T>, keep: set<T>): (r: seq<T>)
    ensures forall x :: x in r <==> x in s && x in keep
    ensures |r| <= |s|
  {
    if s == [] then []
    else
      var last := s[|s| - 1];
      var rest := Within(s[..|s| - 1], keep);
      assert s == s[..|s| - 1] + [last];
      if last in keep then rest + [last] else rest
  }

  lemma WithinSnoc<T(!new)>(s: seq<T>, i: nat, keep: set<T>)
    requires i < |s|
    ensures Within(s[..i + 1], keep) == Within(s[..i], keep) + (if s[i] in keep then [s[i]] else [])
  {
    assert s[..i + 1][..i] == s[..i];
  }

  lemma Associates<T>(a: seq<T>, b: seq<T>, c: seq<T>)
    ensures (a + b) + c == a + (b + c)
  {
  }

  lemma {:induction false} WithinConcat<T(!new)>(s: seq<T>, t: seq<T>, keep: set<T>)
    ensures Within(s + t, keep) == Within(s, keep) + Within(t, keep)
  {
    if t == [] {
      assert s + t == s;
    } else {
      var n := |t| - 1;
      var last := if t[n] in keep then [t[n]] else [];
      calc {
        Within(s + t, keep);
        { assert (s + t)[..|s + t| - 1] == s + t[..n]; }
        Within(s + t[..n], keep) + last;
        { WithinConcat(s, t[..n], keep); }
        (Within(s, keep) + Within(t[..n], keep)) + last;
        { Associates(Within(s, keep), Within(t[..n], keep), last); }
        Within(s, keep) + (Within(t[..n], keep) + last);
        Within(s, keep) + Within(t, keep);
      }
    }
  }

  lemma {:induction false} WithinWithin<T(!new)>(s: seq<T>, a: set<T>, b: set<T>)
    ensures Within(Within(s, a), b) == Within(s, a * b)
  {
    if s != [] {
      var n := |s| - 1;
      WithinWithin(s[..n], a, b);
      if s[n] in a {
        WithinConcat(Within(s[..n], a), [s[n]], b);
        assert Within([s[n]], b) == if s[n] in b then [s[n]] else [];
      }
    }
  }

  ghost predicate NoDuplicates<T>(s: seq<T>) {
    forall i, j :: 0 <= i < j < |s| ==> s[i] != s[j]
  }

  lemma {:induction false} WithinNoDuplicates<T(!new)>(s: seq<T>, keep: set<T>)
    requires NoDuplicates(s)
    ensures NoDuplicates(Within(s, keep))
  {
    if s != [] {
      WithinNoDuplicates(s[..|s| - 1], keep);
    }
  }

  lemma {:induction false} WithinNothing<T(!new)>(w: seq<T>, keep: set<T>)
    requires forall x :: x in w ==> x !in keep
    ensures Within(w, keep) == []
  {
    if w != [] {
      assert w[|w| - 1] in w;
      WithinNothing(w[..|w| - 1], keep);
    }
  }

  lemma {:induction false} WithinEverything<T(!new)>(w: seq<T>, keep: set<T>)
    requires forall x :: x in w ==> x in keep
    ensures Within(w, keep) == w
  {
    if w != [] {
      assert w[|w| - 1] in w;
      WithinEverything(w[..|w| - 1], keep);
    }
  }

  /** Filtering out a prefix of a duplicate-free sequence leaves the rest of it. */
  lemma WithinRest<T(!new)>(w: seq<T>, n: nat, keep: set<T>)
    requires NoDuplicates(w) && n <= |w|
    requires forall x :: x in w ==> (x in keep <==> x !in w[..n])
    ensures Within(w, keep) == w[n..]
  {
    var p, q := w[..n], w[n..];
    assert w == p + q;
    forall x | x in q ensures x in keep {
      var i :| 0 <= i < |q| && q[i] == x;
      assert w[n + i] == x;
    }
    WithinNothing(p, keep);
    WithinEverything(q, keep);
    WithinConcat(p, q, keep);
  }

  /** A duplicate-free sequence has as many elements as its element set. */
  lemma {:induction false} SizeOfElements<T(!new)>(s: seq<T>)
    requires NoDuplicates(s)
    ensures |set x | x in s| == |s|
  {
    if s == [] {
      assert (set x | x in s) == {};
    } else {
      var n := |s| - 1;
      SizeOfElements(s[..n]);
      assert s == s[..n] + [s[n]];
      assert (set x | x in s) == (set x | x in s[..n]) + {s[n]};
    }
  }

  // ---- the order of sorted() on strings -------------------------------------------

  predicate Less(a: string, b: string) {
    b != "" && (a == "" || a[0] < b[0] || (a[0] == b[0] && Less(a[1..], b[1..])))
  }

  lemma {:induction false} LessIrreflexive(a: string)
    ensures !Less(a, a)
  {
    if a != "" {
      LessIrreflexive(a[1..]);
    }
  }

  lemma {:induction false} LessTransitive(a: string, b: string, c: string)
    requires Less(a, b) && Less(b, c)
    ensures Less(a, c)
  {
    if a != "" && a[0] == b[0] && b[0] == c[0] {
      LessTransitive(a[1..], b[1..], c[1..]);
    }
  }

  lemma {:induction false} LessTotal(a: string, b: string)
    ensures Less(a, b) || a == b || Less(b, a)
  {
    if a != "" && b != "" && a[0] == b[0] {
      LessTotal(a[1..], b[1..]);
      assert a == [a[0]] + a[1..] && b == [b[0]] + b[1..];
    }
  }

  /** A shared prefix does not influence the order. */
  lemma {:induction false} LessAfterPrefix(p: string, a: string, b: string)
    ensures Less(p + a, p + b) <==> Less(a, b)
  {
    if p == "" {
      assert p + a == a && p + b == b;
    } else {
      LessAfterPrefix(p[1..], a, b);
      assert (p + a)[1..] == p[1..] + a && (p + b)[1..] == p[1..] + b;
    }
  }

  ghost predicate Ascending(s: seq<string>) {
    forall i, j :: 0 <= i < j < |s| ==> Less(s[i], s[j])
  }

  lemma AscendingNoDuplicates(s: seq<string>)
    requires Ascending(s)
    ensures NoDuplicates(s)
  {
    forall i, j | 0 <= i < j < |s| ensures s[i] != s[j] { LessIrreflexive(s[i]); }
  }

  lemma {:induction false} WithinAscending(s: seq<string>, keep: set<string>)
    requires Ascending(s)
    ensures Ascending(Within(s, keep))
  {
    if s != [] {
      var n := |s| - 1;
      WithinAscending(s[..n], keep);
      assert forall x :: x in s[..n] ==> Less(x, s[n]);
      assert forall x :: x in Within(s[..n], keep) ==> Less(x, s[n]);
    }
  }

  function Insert(x: string, s: seq<string>): (r: seq<string>)
    requires Ascending(s)
    ensures Ascending(r)
    ensures forall y :: y in r <==> y == x || y in s
  {
    if s == [] then [x]
    else if x == s[0] then s
    else if Less(x, s[0]) then
      assert forall j :: 0 < j < |s| ==> Less(x, s[j]) by {
        forall j | 0 < j < |s| ensures Less(x, s[j]) { LessTransitive(x, s[0], s[j]); }
      }
      [x] + s
    else
      LessTotal(x, s[0]);
      var rest := Insert(x, s[1..]);
      assert forall y :: y in rest ==> Less(s[0], y);
      assert s == [s[0]] + s[1..];
      [s[0]] + rest
  }

  /** sorted(set(xs)). */
  function SortDistinct(xs: seq<string>): (r: seq<string>)
    ensures Ascending(r)
    ensures forall y :: y in r <==> y in xs
  {
    if xs == [] then [] else Insert(xs[0], SortDistinct(xs[1..]))
  }

  /** Ascending order leaves no freedom: the element set decides the sequence. */
  lemma {:induction false} AscendingUnique(a: seq<string>, b: seq<string>)
    requires Ascending(a) && Ascending(b)
    requires forall x :: x in a <==> x in b
    ensures a == b
  {
    assert |b| > 0 ==> b[0] in b;
    if a != [] {
      assert a[0] in b;
      assert b[0] in a;
      var i :| 0 <= i < |b| && b[i] == a[0];
      var j :| 0 <= j < |a| && a[j] == b[0];
      if i > 0 && j > 0 {
        LessTransitive(a[0], a[j], a[0]);
        LessIrreflexive(a[0]);
      }
      assert a[0] == b[0];
      AscendingNoDuplicates(a);
      AscendingNoDuplicates(b);
      forall x ensures x in a[1..] <==> x in b[1..] {
        if x in a[1..] { assert x in b && x != b[0]; }
        if x in b[1..] { assert x in a && x != a[0]; }
      }
      AscendingUnique(a[1..], b[1..]);
      assert a == [a[0]] + a[1..] && b == [b[0]] + b[1..];
    }
  }

  lemma SortDistinctOfAscending(s: seq<string>)
    requires Ascending(s)
    ensures SortDistinct(s) == s
  {
    AscendingUnique(SortDistinct(s), s);
  }
}
