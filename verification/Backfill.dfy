/** The taxonomy backfill: one provider request per market, and one savepoint per trade that
    carries its metadata and its provenance together. */
module Backfill {
  import opened Basics
  import Identity

  // ---- provider results -----------------------------------------------------------------

  datatype GammaState = Found | NotFound | ProviderError | Ambiguous | Malformed

  datatype GammaResult = GammaResult(state: GammaState, market: string)

  /** (cid or "").lower() for each id; a missing id is the empty text. */
  function Keys(cids: seq<string>): seq<string> {
    seq(|cids|, i requires 0 <= i < |cids| => Identity.Lower(cids[i]))
  }

  /** Position i is the first one with its key. */
  predicate IsFirst(keys: seq<string>, i: nat)
    requires i < |keys|
  {
    keys[i] != "" && keys[i] !in keys[..i]
  }

  /** The requests that the batch sends: the first spelling of each market id, in order. */
  function FirstSpellings(cids: seq<string>, keys: seq<string>): seq<string>
    requires |cids| == |keys|
  {
    if cids == [] then []
    else
      var n := |cids| - 1;
      FirstSpellings(cids[..n], keys[..n]) + (if IsFirst(keys, n) then [cids[n]] else [])
  }

  /** The batch answers exactly the keys of the ids, each with the answer to the first id of
      that key. */
  ghost predicate Answers(out: map<string, GammaResult>, cids: seq<string>, keys: seq<string>,
                          provider: string -> GammaResult)
    requires |cids| == |keys|
  {
    && (forall key :: key in out <==> key in keys && key != "")
    && (forall i :: 0 <= i < |keys| && IsFirst(keys, i) ==> keys[i] in out && out[keys[i]] == provider(cids[i]))
  }

  lemma SeenStep(out: map<string, GammaResult>, cids: seq<string>, keys: seq<string>,
                 provider: string -> GammaResult, i: nat)
    requires |cids| == |keys| && i < |keys| && Answers(out, cids[..i], keys[..i], provider)
    ensures keys[i] != "" && keys[i] !in out <==> IsFirst(keys, i)
    ensures FirstSpellings(cids[..i + 1], keys[..i + 1])
            == FirstSpellings(cids[..i], keys[..i]) + (if IsFirst(keys, i) then [cids[i]] else [])
    ensures Answers(if IsFirst(keys, i) then out[keys[i] := provider(cids[i])] else out,
                    cids[..i + 1], keys[..i + 1], provider)
  {
    var ks, cs := keys[..i + 1], cids[..i + 1];
    assert ks[..i] == keys[..i] && cs[..i] == cids[..i] && ks == keys[..i] + [keys[i]];
    forall j | 0 <= j < i ensures IsFirst(ks, j) <==> IsFirst(keys[..i], j) {
      assert ks[..j] == keys[..i][..j];
    }
  }

  /** _resolve_gamma_batch. */
  method ResolveGammaBatch(cids: seq<string>, provider: string -> GammaResult)
      returns (out: map<string, GammaResult>, requests: seq<string>)
    ensures requests == FirstSpellings(cids, Keys(cids))
    ensures Answers(out, cids, Keys(cids), provider)
    ensures Resolves(cids, provider, out, requests)
  {
    ghost var keys := Keys(cids);
    out, requests := map[], [];
    var seen: set<string> := {};
    for i := 0 to |cids|
      invariant seen == out.Keys
      invariant requests == FirstSpellings(cids[..i], keys[..i])
      invariant Answers(out, cids[..i], keys[..i], provider)
    {
      SeenStep(out, cids, keys, provider, i);
      var key := Identity.Lower(cids[i]);
      if key != "" && key !in seen {
        seen := seen + {key};
        requests := requests + [cids[i]];
        out := out[key := provider(cids[i])];
      }
    }
    assert cids[..|cids|] == cids && keys[..|cids|] == keys;
    BatchResolves(cids, provider, out, requests);
  }

  /** No market id is requested twice, and none is left out. */
  lemma {:induction false} RequestedOnce(cids: seq<string>)
    ensures Keys(FirstSpellings(cids, Keys(cids))) == DistinctKeys(Keys(cids))
    ensures NoDuplicates(DistinctKeys(Keys(cids)))
    ensures forall key :: key in DistinctKeys(Keys(cids)) <==> key in Keys(cids) && key != ""
  {
    if cids != [] {
      var n := |cids| - 1;
      var keys := Keys(cids);
      RequestedOnce(cids[..n]);
      assert Keys(cids[..n]) == keys[..n] && keys == keys[..n] + [keys[n]];
    }
  }

  function DistinctKeys(keys: seq<string>): seq<string> {
    if keys == [] then []
    else
      var n := |keys| - 1;
      DistinctKeys(keys[..n]) + (if IsFirst(keys, n) then [keys[n]] else [])
  }

  // ---- the batch, in terms of the ids ------------------------------------------------------------

  /** The id at position i is not empty, and no earlier one is the same in lower case. */
  ghost predicate Opens(cids: seq<string>, i: nat)
    requires i < |cids|
  {
    cids[i] != "" && forall j, key :: 0 <= j < i && Identity.Lowered(cids[i], key) ==> !Identity.Lowered(cids[j], key)
  }

  lemma KeysAreLowered(cids: seq<string>, i: nat)
    requires i < |cids|
    ensures Identity.Lowered(cids[i], Keys(cids)[i])
    ensures forall key :: Identity.Lowered(cids[i], key) ==> key == Keys(cids)[i]
    ensures Keys(cids)[i] == "" <==> cids[i] == ""
  {
    Identity.LowerExactlyWhen(cids[i], Keys(cids)[i]);
    forall key | Identity.Lowered(cids[i], key) ensures key == Keys(cids)[i] {
      Identity.LowerExactlyWhen(cids[i], key);
    }
  }

  lemma OpensIsFirst(cids: seq<string>, i: nat)
    requires i < |cids|
    ensures Opens(cids, i) <==> IsFirst(Keys(cids), i)
  {
    var keys := Keys(cids);
    KeysAreLowered(cids, i);
    forall j | 0 <= j < i
      ensures (forall key :: Identity.Lowered(cids[i], key) ==> !Identity.Lowered(cids[j], key)) <==> keys[j] != keys[i]
    {
      KeysAreLowered(cids, j);
    }
    assert keys[i] in keys[..i] <==> exists j :: 0 <= j < i && keys[j] == keys[i] by {
      if keys[i] in keys[..i] {
        var j :| 0 <= j < i && keys[..i][j] == keys[i];
        assert keys[j] == keys[i];
      }
      if j :| 0 <= j < i && keys[j] == keys[i] {
        assert keys[..i][j] == keys[i];
      }
    }
  }

  /** at lists, in order, the positions of the ids that open a request. */
  ghost predicate Positions(at: seq<nat>, cids: seq<string>) {
    && (forall m, n :: 0 <= m < n < |at| ==> at[m] < at[n])
    && (forall i :: i in at <==> 0 <= i < |cids| && Opens(cids, i))
  }

  /** These are the ids at the positions. */
  ghost predicate Reads(requests: seq<string>, at: seq<nat>, cids: seq<string>) {
    |requests| == |at| && forall n :: 0 <= n < |at| ==> at[n] < |cids| && requests[n] == cids[at[n]]
  }

  lemma PositionsSnoc(at: seq<nat>, init: seq<string>, last: string, requests: seq<string>)
    requires Positions(at, init) && Reads(requests, at, init)
    ensures var cids, n := init + [last], |init|;
            if Opens(cids, n) then Positions(at + [n], cids) && Reads(requests + [last], at + [n], cids)
            else Positions(at, cids) && Reads(requests, at, cids)
  {
    var cids, n := init + [last], |init|;
    forall i | 0 <= i < n ensures Opens(init, i) <==> Opens(cids, i) {
      assert forall j :: 0 <= j <= i ==> cids[j] == init[j];
    }
    forall k | 0 <= k < |at| ensures at[k] < n {
      assert at[k] in at;
    }
  }

  /** What a batch does: it sends the ids that open a request, in order, and answers every spelling
      of an id by the answer to the one that was sent. */
  ghost predicate Resolves(cids: seq<string>, provider: string -> GammaResult, out: map<string, GammaResult>,
                           requests: seq<string>) {
    && (exists at :: Positions(at, cids) && Reads(requests, at, cids))
    && (forall key :: key in out <==> key != "" && exists i :: 0 <= i < |cids| && Identity.Lowered(cids[i], key))
    && (forall i, key :: 0 <= i < |cids| && Opens(cids, i) && Identity.Lowered(cids[i], key) ==>
          key in out && out[key] == provider(cids[i]))
  }

  lemma {:induction false} RequestPositions(cids: seq<string>) returns (at: seq<nat>)
    ensures Positions(at, cids) && Reads(FirstSpellings(cids, Keys(cids)), at, cids)
  {
    if cids == [] {
      at := [];
    } else {
      var n := |cids| - 1;
      at := RequestPositions(cids[..n]);
      assert Keys(cids[..n]) == Keys(cids)[..n] && cids[..n] + [cids[n]] == cids;
      OpensIsFirst(cids, n);
      PositionsSnoc(at, cids[..n], cids[n], FirstSpellings(cids[..n], Keys(cids[..n])));
      if Opens(cids, n) {
        at := at + [n];
      }
    }
  }

  lemma BatchResolves(cids: seq<string>, provider: string -> GammaResult, out: map<string, GammaResult>,
                      requests: seq<string>)
    requires requests == FirstSpellings(cids, Keys(cids)) && Answers(out, cids, Keys(cids), provider)
    ensures Resolves(cids, provider, out, requests)
  {
    var at := RequestPositions(cids);
    var keys := Keys(cids);
    forall i | 0 <= i < |cids|
      ensures Identity.Lowered(cids[i], keys[i]) && (Opens(cids, i) <==> IsFirst(keys, i))
      ensures forall key :: Identity.Lowered(cids[i], key) ==> key == keys[i]
    {
      KeysAreLowered(cids, i);
      OpensIsFirst(cids, i);
    }
  }
}
