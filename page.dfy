/**
  The query handling of the dashboard's server page (app/page.tsx): reading
  the `community` selection, the optional `status` filter and the `sort` /
  `dir` choice from the URL, and building the distinct, sorted community
  picklist from the rows the backend returns. The backend queries themselves
  are not modelled; their results are parameters.
 */
module Page {
  import opened Wrappers
  import opened Text
  import opened Lists
  import opened Order
  import opened SearchParams

  // ---------------------------------------------------------------- parseCommunityParam

  /** `Array.isArray(v) ? v : [v]`; an absent value contributes no strings. */
  function Values(v: ParamValue): seq<string> {
    match v
    case Absent => []
    case One(s) => [s]
    case Many(ss) => ss
  }

  /** `!v`: `undefined` and `""` are falsy; every array, even an empty one, is truthy. */
  predicate Falsy(v: ParamValue)
    ensures Falsy(v) ==> Values(v) == [] || Values(v) == [""]
    ensures v.Many? ==> !Falsy(v)
  {
    v == Absent || v == One("")
  }

  /** `arr.flatMap((s) => s.split(","))`. */
  function SplitAll(xs: seq<string>): (r: seq<string>)
    ensures |r| >= |xs|
    ensures forall k :: 0 <= k < |r| ==> CommaFree(r[k])
  {
    if |xs| == 0 then [] else SplitCommas(xs[0]) + SplitAll(xs[1..])
  }

  /** `xs.map((s) => s.trim())`. */
  function TrimAll(xs: seq<string>): (r: seq<string>)
    ensures |r| == |xs|
    ensures forall k :: 0 <= k < |xs| ==> r[k] == Trim(xs[k])
  {
    if |xs| == 0 then [] else [Trim(xs[0])] + TrimAll(xs[1..])
  }

  /** `xs.filter((s) => s.length > 0)`. */
  function DropEmpty(xs: seq<string>): (r: seq<string>)
    ensures forall x :: x in r <==> x in xs && x != ""
    ensures "" !in r
    ensures forall x :: x != "" ==> multiset(r)[x] == multiset(xs)[x]
    ensures IsSubsequence(r, xs)
  {
    if |xs| == 0 then []
    else
      var rest := DropEmpty(xs[1..]);
      assert xs == [xs[0]] + xs[1..];
      if xs[0] == "" then rest else [xs[0]] + rest
  }

  /** The list that feeds the `Set`: every comma-separated piece, trimmed, empties dropped, in order. */
  function Candidates(v: ParamValue): (r: seq<string>)
    ensures forall k :: 0 <= k < |r| ==> r[k] != "" && IsTrimmed(r[k])
  {
    var t := TrimAll(SplitAll(Values(v)));
    var r := DropEmpty(t);
    assert forall k :: 0 <= k < |r| ==> r[k] in t;
    r
  }

  /** The page sees the values of the pairs with the name, in URL order. */
  lemma EntryValues(ps: Params, name: string)
    ensures Values(Entry(ps, name)) == GetAll(ps, name)
  {
  }

  /**
    `parseCommunityParam`: the distinct non-empty trimmed pieces of the
    parameter, each once, in order of first occurrence.
   */
  function ParseCommunityParam(v: ParamValue): (r: seq<string>)
    ensures Falsy(v) ==> r == []
    ensures NoDup(r)
    ensures forall k :: 0 <= k < |r| ==> r[k] != "" && IsTrimmed(r[k])
  {
    if Falsy(v) then []
    else
      var r := Dedup(Candidates(v));
      assert forall k :: 0 <= k < |r| ==> r[k] in Candidates(v);
      r
  }

  /** `p` is one of the comma-separated pieces of one of the values of `v`. */
  predicate IsPieceOf(v: ParamValue, p: string) {
    exists i :: 0 <= i < |Values(v)| && p in SplitCommas(Values(v)[i])
  }

  lemma {:induction false} SplitAllMembers(xs: seq<string>, p: string)
    ensures p in SplitAll(xs) <==> exists i :: 0 <= i < |xs| && p in SplitCommas(xs[i])
  {
    if |xs| > 0 {
      SplitAllMembers(xs[1..], p);
      if i :| 0 < i < |xs| && p in SplitCommas(xs[i]) {
        assert xs[1..][i - 1] == xs[i];
      }
      if i :| 0 <= i < |xs[1..]| && p in SplitCommas(xs[1..][i]) {
        assert xs[i + 1] == xs[1..][i];
      }
    }
  }

  lemma TrimAllMembers(ys: seq<string>, x: string)
    ensures x in TrimAll(ys) <==> exists p :: p in ys && Trim(p) == x
  {
    var t := TrimAll(ys);
    if x in t {
      var k :| 0 <= k < |t| && t[k] == x;
      assert ys[k] in ys && Trim(ys[k]) == x;
    }
    if p :| p in ys && Trim(p) == x {
      var k :| 0 <= k < |ys| && ys[k] == p;
      assert t[k] == x;
    }
  }

  /** A string is a candidate iff it is the non-empty trim of some piece of `v`. */
  lemma CandidatesMembers(v: ParamValue, x: string)
    ensures x in Candidates(v) <==> x != "" && exists p :: IsPieceOf(v, p) && Trim(p) == x
  {
    var pieces := SplitAll(Values(v));
    forall p ensures p in pieces <==> IsPieceOf(v, p) {
      SplitAllMembers(Values(v), p);
    }
    TrimAllMembers(pieces, x);
    assert x in Candidates(v) <==> x in TrimAll(pieces) && x != "";
  }

  /** The `!v` shortcut agrees with the general computation: a falsy value has no candidates. */
  lemma FalsyHasNoCandidates(v: ParamValue)
    requires Falsy(v)
    ensures Candidates(v) == []
  {
    if v == One("") {
      assert SplitAll([""]) == [""] + SplitAll([]);
      assert TrimAll([""]) == [""];
    }
  }

  lemma ParseIsDedupOfCandidates(v: ParamValue)
    ensures ParseCommunityParam(v) == Dedup(Candidates(v))
  {
    if Falsy(v) {
      FalsyHasNoCandidates(v);
    }
  }

  /**
    Soundness and completeness: a string is selected iff it is the
    non-empty trim of some comma-separated piece of some value.
   */
  lemma ParseMembers(v: ParamValue, x: string)
    ensures x in ParseCommunityParam(v) <==> x != "" && exists p :: IsPieceOf(v, p) && Trim(p) == x
  {
    ParseIsDedupOfCandidates(v);
    CandidatesMembers(v, x);
  }

  /** The selection lists the pieces in the order of their first occurrence among the candidates. */
  lemma ParseFirstOccurrenceOrder(v: ParamValue)
    ensures forall k :: 0 <= k < |ParseCommunityParam(v)| ==> ParseCommunityParam(v)[k] in Candidates(v)
    ensures forall i, j :: 0 <= i < j < |ParseCommunityParam(v)| ==>
      FirstIndex(Candidates(v), ParseCommunityParam(v)[i]) < FirstIndex(Candidates(v), ParseCommunityParam(v)[j])
  {
    ParseIsDedupOfCandidates(v);
    DedupFirstOccurrenceOrder(Candidates(v));
  }

  lemma {:induction false} SplitJoinAll(ss: seq<string>)
    requires |ss| >= 1
    ensures SplitCommas(JoinCommas(ss)) == SplitAll(ss)
  {
    if |ss| == 1 {
      assert SplitAll(ss) == SplitCommas(ss[0]) + SplitAll([]);
    } else {
      SplitAppend(ss[0], JoinCommas(ss[1..]));
      SplitJoinAll(ss[1..]);
    }
  }

  /** Repeated parameters mean the same as one comma-joined parameter. */
  lemma RepeatedParamsAsJoined(ss: seq<string>)
    ensures ParseCommunityParam(Many(ss)) == ParseCommunityParam(One(JoinCommas(ss)))
  {
    ParseIsDedupOfCandidates(Many(ss));
    ParseIsDedupOfCandidates(One(JoinCommas(ss)));
    if |ss| == 0 {
      assert Candidates(Many(ss)) == [];
      FalsyHasNoCandidates(One(""));
    } else {
      SplitJoinAll(ss);
      assert SplitAll([JoinCommas(ss)]) == SplitCommas(JoinCommas(ss)) + SplitAll([]);
      assert SplitAll(Values(Many(ss))) == SplitAll(Values(One(JoinCommas(ss))));
      assert Candidates(Many(ss)) == Candidates(One(JoinCommas(ss)));
    }
  }

  /** The two-value instance: `?community=a&community=b` reads like `?community=a,b`. */
  lemma TwoParamsAsJoined(a: string, b: string)
    ensures ParseCommunityParam(Many([a, b])) == ParseCommunityParam(One(a + "," + b))
  {
    RepeatedParamsAsJoined([a, b]);
    assert JoinCommas([a, b]) == a + [Comma] + JoinCommas([b]);
  }

  // ---------------------------------------------------------------- asNonEmptyString

  /**
    `asNonEmptyString`: nothing for a value that is not a single string or is
    blank; otherwise its trim, which is non-empty.
   */
  function AsNonEmptyString(v: ParamValue): (r: Option<string>)
    ensures r.Some? <==> v.One? && !AllSpace(v.s)
    ensures r.Some? ==> r.value == Trim(v.s) && r.value != "" && IsTrimmed(r.value)
  {
    match v
    case One(s) =>
      TrimEmptyIff(s);
      var t := Trim(s);
      if |t| > 0 then Some(t) else None
    case _ => None
  }

  // ---------------------------------------------------------------- sort and dir

  /** The `sort` key: `"price"` or `"scraped_at"` as given, otherwise `"scraped_at"`. */
  function SortKey(v: ParamValue): (r: string)
    ensures r == "price" || r == "scraped_at"
    ensures r == "price" <==> v == One("price")
  {
    if v == One("price") || v == One("scraped_at") then v.s else "scraped_at"
  }

  /** The direction: `"asc"` only for exactly `"asc"`, otherwise `"desc"`. */
  function SortDir(v: ParamValue): (r: string)
    ensures r == "asc" || r == "desc"
    ensures r == "asc" <==> v == One("asc")
  {
    if v == One("asc") then "asc" else "desc"
  }

  // ---------------------------------------------------------------- the community picklist

  /**
    `rows.map((r) => r.community_name).filter((v) => typeof v === "string" &&
    v.trim().length > 0)`. A row's `community_name` is `Some(s)` for a
    string and `None` for anything else (null, a number, ...). The kept names
    are NOT trimmed.
   */
  function KeepNames(rows: seq<Option<string>>): (r: seq<string>)
    ensures forall x :: x in r <==> Some(x) in rows && Trim(x) != ""
  {
    if |rows| == 0 then []
    else
      var rest := KeepNames(rows[1..]);
      assert forall x :: Some(x) in rows <==> Some(x) == rows[0] || Some(x) in rows[1..] by {
        assert rows == [rows[0]] + rows[1..];
      }
      if rows[0].Some? && Trim(rows[0].value) != "" then [rows[0].value] + rest else rest
  }

  /**
    The `communities` picklist: `data ?? []`, the kept names, de-duplicated
    and sorted. It is strictly increasing (sorted, no repeats) and holds
    exactly the names of rows that are not blank once trimmed.
   */
  function CommunityPicklist(data: Option<seq<Option<string>>>): (r: seq<string>)
    ensures StrictlySorted(r)
    ensures forall x :: x in r <==> data.Some? && Some(x) in data.value && Trim(x) != ""
  {
    var rows := if data.Some? then data.value else [];
    var d := Dedup(KeepNames(rows));
    var r := Sort(d);
    assert forall x :: x in r <==> x in multiset(d);
    NoDupPermutation(d, r);
    SortedNoDupIsStrict(r);
    r
  }
}
