/**
  The community multi-select widget (app/CommunityFilter.tsx). Its rules are
  pure functions over the widget's state; the `Widget` class holds that state
  (`value`, `open`, `query`, the current URL's `params` and the props) and
  has one method per event handler. Navigation is not performed: every
  `router.push` is recorded, in order, in `pushes`.
 */
module CommunityFilter {
  import opened Wrappers
  import opened Text
  import opened Lists
  import opened Order
  import opened SearchParams
  import Page

  /** `DEFAULT_COMMUNITIES`. */
  const DefaultCommunities: seq<string> := ["The Skyline Collection", "Three Hills"]

  /** The name of the query parameter that carries the selection. */
  const CommunityParam: string := "community"

  // ---------------------------------------------------------------- initial value and props sync

  /**
    The initial `value`: the selection from the URL when it is non-empty,
    otherwise the defaults. Either way the widget starts with a non-empty
    selection.
   */
  function InitialValue(selected: seq<string>): (r: seq<string>)
    ensures |selected| > 0 ==> r == selected
    ensures |selected| == 0 ==> r == DefaultCommunities
    ensures r != []
  {
    if |selected| > 0 then selected else DefaultCommunities
  }

  /**
    The props-sync effect: a non-empty `selected` replaces `value`; an empty
    one leaves `value` as it is (so a cleared selection stays cleared).
   */
  function SyncValue(value: seq<string>, selected: seq<string>): (r: seq<string>)
    ensures |selected| > 0 ==> r == selected
    ensures |selected| == 0 ==> r == value
  {
    if |selected| > 0 then selected else value
  }

  /** `!sp.get("community")`: the parameter is missing, or present with the empty value. */
  predicate LacksCommunity(ps: Params)
    ensures LacksCommunity(ps) <==>
      GetAll(ps, CommunityParam) == [] || GetAll(ps, CommunityParam)[0] == ""
  {
    var g := Get(ps, CommunityParam);
    g == None || g == Some("")
  }

  // ---------------------------------------------------------------- toggleCommunity

  /**
    The `next` selection of `toggleCommunity(name)`. A selected name is
    removed, every occurrence of it, and the others keep their order and
    multiplicity. An unselected name is added and the whole selection is
    sorted. Since a name is only added when absent, a duplicate-free
    selection stays duplicate-free.
   */
  function Toggle(value: seq<string>, name: string): (r: seq<string>)
    ensures name in value ==> name !in r && IsSubsequence(r, value)
    ensures name in value ==> forall x :: x != name ==> multiset(r)[x] == multiset(value)[x]
    ensures name !in value ==> Sorted(r) && multiset(r) == multiset(value) + multiset{name}
    ensures NoDup(value) ==> NoDup(r)
  {
    if name in value then
      var r := RemoveAll(value, name);
      assert NoDup(value) ==> NoDup(r) by {
        if NoDup(value) {
          forall i, j | 0 <= i < j < |r| ensures r[i] != r[j] {
            if r[i] == r[j] {
              assert r == r[..j] + r[j..];
              assert r[i] in r[..j] && r[j] in r[j..];
              assert multiset(r)[r[i]] == multiset(r[..j])[r[i]] + multiset(r[j..])[r[i]];
              NoDupCount(value, r[i]);
            }
          }
        }
      }
      r
    else
      var r := Sort(value + [name]);
      assert NoDup(value) ==> NoDup(value + [name]);
      assert NoDup(value) ==> NoDup(r) by {
        if NoDup(value) { NoDupPermutation(value + [name], r); }
      }
      r
  }

  /**
    On a sorted, duplicate-free selection, toggling the same name twice gives
    the selection back, whether the name was selected or not.
   */
  lemma ToggleTwice(value: seq<string>, name: string)
    requires Sorted(value) && NoDup(value)
    ensures Toggle(Toggle(value, name), name) == value
  {
    if name in value {
      var t := Toggle(value, name);
      assert t == RemoveAll(value, name) && name !in t;
      RemoveThenAdd(value, name);
    } else {
      var t := Toggle(value, name);
      assert t == Sort(value + [name]);
      assert name in multiset(t);
      AddThenRemove(value, name);
    }
  }

  /** Removing a selected name and adding it back restores a sorted, duplicate-free selection. */
  lemma RemoveThenAdd(value: seq<string>, name: string)
    requires Sorted(value) && NoDup(value) && name in value
    ensures Sort(RemoveAll(value, name) + [name]) == value
  {
    var t := RemoveAll(value, name);
    var u := Sort(t + [name]);
    NoDupCount(value, name);
    assert name in multiset(value);
    forall y ensures multiset(u)[y] == multiset(value)[y] {
      if y != name { assert multiset(u)[y] == multiset(t)[y]; }
    }
    assert multiset(u) == multiset(value);
    SortedUnique(u, value);
  }

  /** Adding an unselected name and removing it again restores a sorted selection. */
  lemma AddThenRemove(value: seq<string>, name: string)
    requires Sorted(value) && name !in value
    ensures RemoveAll(Sort(value + [name]), name) == value
  {
    var t := Sort(value + [name]);
    var u := RemoveAll(t, name);
    SubsequenceSorted(u, t);
    assert name !in multiset(value);
    forall y ensures multiset(u)[y] == multiset(value)[y] {
      if y != name { assert multiset(u)[y] == multiset(t)[y]; }
    }
    assert multiset(u) == multiset(value);
    SortedUnique(u, value);
  }

  // ---------------------------------------------------------------- apply

  /**
    The params `apply(next)` pushes: a copy of the current ones without any
    `community` pair when `next` is empty, and otherwise with exactly one
    `community` pair holding `next.join(",")`. Pairs with other names are
    the same, in the same order, in both cases.
   */
  function ApplyParams(ps: Params, next: seq<string>): (r: Params)
    ensures |next| == 0 ==> GetAll(r, CommunityParam) == []
    ensures |next| > 0 ==> GetAll(r, CommunityParam) == [JoinCommas(next)]
    ensures Delete(r, CommunityParam) == Delete(ps, CommunityParam)
  {
    if |next| == 0 then
      var r := Delete(ps, CommunityParam);
      DeleteAbsent(r, CommunityParam);
      r
    else
      SetEffect(ps, CommunityParam, JoinCommas(next));
      Set(ps, CommunityParam, JoinCommas(next))
  }

  /** A name the URL format can carry unchanged: non-empty, trimmed and free of commas. */
  predicate Transportable(name: string) {
    name != "" && IsTrimmed(name) && CommaFree(name)
  }

  lemma {:induction false} TrimAllOfTrimmed(xs: seq<string>)
    requires forall k :: 0 <= k < |xs| ==> IsTrimmed(xs[k])
    ensures Page.TrimAll(xs) == xs
  {
    forall k | 0 <= k < |xs| ensures Page.TrimAll(xs)[k] == xs[k] {
      TrimOfTrimmed(xs[k]);
    }
  }

  lemma {:induction false} DropEmptyOfNonEmpty(xs: seq<string>)
    requires forall k :: 0 <= k < |xs| ==> xs[k] != ""
    ensures Page.DropEmpty(xs) == xs
  {
    if |xs| > 0 {
      DropEmptyOfNonEmpty(xs[1..]);
      assert xs == [xs[0]] + xs[1..];
    }
  }

  /**
    Round trip through the URL: the page reads back, from the params `apply`
    pushes, the selection itself with repeats dropped, provided every name is
    transportable. The empty selection reads back as empty.
   */
  lemma ApplyThenParse(ps: Params, next: seq<string>)
    requires forall k :: 0 <= k < |next| ==> Transportable(next[k])
    ensures Page.ParseCommunityParam(Entry(ApplyParams(ps, next), CommunityParam)) == Dedup(next)
  {
    if |next| > 0 {
      var j := JoinCommas(next);
      assert Entry(ApplyParams(ps, next), CommunityParam) == One(j);
      CandidatesOfJoin(next);
      Page.ParseIsDedupOfCandidates(One(j));
    }
  }

  /** The pieces of a join of transportable names are those names. */
  lemma CandidatesOfJoin(next: seq<string>)
    requires |next| > 0
    requires forall k :: 0 <= k < |next| ==> Transportable(next[k])
    ensures Page.Candidates(One(JoinCommas(next))) == next
  {
    var j := JoinCommas(next);
    SplitJoin(next);
    assert Page.SplitAll([j]) == next by {
      assert Page.SplitAll([j]) == SplitCommas(j) + Page.SplitAll([]);
    }
    TrimAllOfTrimmed(next);
    DropEmptyOfNonEmpty(next);
  }

  /** For a duplicate-free selection of transportable names the round trip is exact. */
  lemma ApplyThenParseExact(ps: Params, next: seq<string>)
    requires NoDup(next)
    requires forall k :: 0 <= k < |next| ==> Transportable(next[k])
    ensures Page.ParseCommunityParam(Entry(ApplyParams(ps, next), CommunityParam)) == next
  {
    ApplyThenParse(ps, next);
    DedupOfNoDup(next);
  }

  /**
    After a push and the re-render it causes, the props-sync rule keeps the
    widget's selection: a non-empty one comes back from the URL unchanged,
    and the empty one (after `clearAll`) is not replaced by anything.
   */
  lemma SyncAfterApply(ps: Params, value: seq<string>)
    requires NoDup(value)
    requires forall k :: 0 <= k < |value| ==> Transportable(value[k])
    ensures SyncValue(value, Page.ParseCommunityParam(Entry(ApplyParams(ps, value), CommunityParam))) == value
  {
    ApplyThenParseExact(ps, value);
  }

  /**
    The code does not tell an explicitly empty `community=` from a missing
    parameter: for both, a fresh widget starts from the defaults and the
    mount effect writes them to the URL.
   */
  lemma EmptyParamActsAsMissing(ps: Params)
    requires GetAll(ps, CommunityParam) == [] || GetAll(ps, CommunityParam) == [""]
    ensures LacksCommunity(ps)
    ensures InitialValue(Page.ParseCommunityParam(Entry(ps, CommunityParam))) == DefaultCommunities
  {
  }

  /** The candidates of a single comma-free value are its trim, unless that is empty. */
  lemma CandidatesOfCommaFree(x: string)
    requires CommaFree(x)
    ensures Page.Candidates(One(x)) == if Trim(x) == "" then [] else [Trim(x)]
  {
    SplitCommaFree(x);
    assert Page.SplitAll([x]) == [x] by {
      assert Page.SplitAll([x]) == SplitCommas(x) + Page.SplitAll([]);
    }
    assert Page.TrimAll([x]) == [Trim(x)];
    assert Page.DropEmpty([Trim(x)]) == if Trim(x) == "" then [] else [Trim(x)] + Page.DropEmpty([]);
  }

  /**
    The mount effect looks at the first `community` value only: with
    `?community=&community=name` the page selects `name`, yet the mount
    effect still finds no value and pushes the defaults over it.
   */
  lemma FirstEmptyValueHidesSelection(name: string)
    requires Transportable(name)
    ensures var ps := [(CommunityParam, ""), (CommunityParam, name)];
      LacksCommunity(ps) && Page.ParseCommunityParam(Entry(ps, CommunityParam)) == [name]
  {
    var ps := [(CommunityParam, ""), (CommunityParam, name)];
    assert GetAll(ps, CommunityParam) == ["", name] by {
      assert ps[1..] == [(CommunityParam, name)];
      assert GetAll(ps[1..], CommunityParam) == [name];
    }
    assert Get(ps, CommunityParam) == Some("");
    var v := Many(["", name]);
    assert Entry(ps, CommunityParam) == v;
    assert Page.Candidates(v) == [name] by {
      CandidatesOfCommaFree(name);
      TrimOfTrimmed(name);
      SplitCommaFree(name);
      assert Page.SplitAll([name]) == SplitCommas(name) + Page.SplitAll([]);
      assert Page.SplitAll(["", name]) == SplitCommas("") + Page.SplitAll([name]);
      assert Page.TrimAll(["", name]) == [Trim(""), name];
      assert Trim("") == "";
      assert Page.DropEmpty(["", name]) == Page.DropEmpty([name]);
    }
    Page.ParseIsDedupOfCandidates(v);
    DedupOfNoDup([name]);
  }

  // ---------------------------------------------------------------- filtered

  /** The trimmed, lower-cased query that `filtered` matches against (`q`). */
  function Needle(query: string): (r: string)
    ensures |r| == |Trim(query)|
    ensures r == "" <==> AllSpace(query)
  {
    TrimEmptyIff(query);
    ToLower(Trim(query))
  }

  /** `c.toLowerCase().includes(q)`. */
  predicate Matches(c: string, q: string) {
    Contains(ToLower(c), q)
  }

  function KeepMatching(cs: seq<string>, q: string): (r: seq<string>)
    ensures IsSubsequence(r, cs)
    ensures forall x :: multiset(r)[x] == if Matches(x, q) then multiset(cs)[x] else 0
  {
    if |cs| == 0 then []
    else
      var rest := KeepMatching(cs[1..], q);
      assert cs == [cs[0]] + cs[1..];
      if Matches(cs[0], q) then [cs[0]] + rest else rest
  }

  /**
    `filtered`: the full list when the trimmed query is empty; otherwise the
    names whose lower-case form contains the lower-cased trimmed query, each
    as often as in `communities`, in their original order.
   */
  function Filtered(communities: seq<string>, query: string): (r: seq<string>)
    ensures Trim(query) == "" ==> r == communities
    ensures Trim(query) != "" ==> IsSubsequence(r, communities)
    ensures Trim(query) != "" ==> forall x ::
      multiset(r)[x] == if Matches(x, Needle(query)) then multiset(communities)[x] else 0
  {
    var q := Needle(query);
    if |q| == 0 then communities else KeepMatching(communities, q)
  }

  // ---------------------------------------------------------------- label and chips

  /** How many chips are shown before the "+N more" note. */
  const MaxChips: nat := 6

  const LabelPrefix: string := "Communities ("

  /**
    `buttonLabel`: "Communities (All)" exactly when nothing is selected;
    otherwise "Communities (n)" where the digits read back as the number of
    selected names.
   */
  function ButtonLabel(value: seq<string>): (r: string)
    ensures r == "Communities (All)" <==> |value| == 0
    ensures |value| > 0 ==> |r| > |LabelPrefix| + 1 && r[..|LabelPrefix|] == LabelPrefix && r[|r| - 1] == ')'
    ensures |value| > 0 ==> var digits := r[|LabelPrefix|..|r| - 1];
      (forall k :: 0 <= k < |digits| ==> IsDigit(digits[k])) && DigitsValue(digits) == |value| &&
      (|digits| > 1 ==> digits[0] != '0')
  {
    if |value| == 0 then "Communities (All)"
    else
      var n := NatToString(|value|);
      var r := LabelPrefix + n + ")";
      assert r[|LabelPrefix|..|r| - 1] == n;
      NatToStringValue(|value|);
      assert r[|LabelPrefix|] == n[0];
      assert "Communities (All)"[|LabelPrefix|] == 'A';
      r
  }

  /** `value.slice(0, 6)`: the selected names shown as chips. */
  function Chips(value: seq<string>): (r: seq<string>)
    ensures |r| == if |value| < MaxChips then |value| else MaxChips
    ensures r == value[..|r|]
  {
    if |value| < MaxChips then value else value[..MaxChips]
  }

  /** The "+N more" note, present only when more than six names are selected. */
  function MoreNote(value: seq<string>): (r: Option<string>)
    ensures r.Some? <==> |value| > MaxChips
    ensures r.Some? ==> |r.value| > 6 && r.value[0] == '+' && r.value[|r.value| - 5..] == " more"
    ensures r.Some? ==> var digits := r.value[1..|r.value| - 5];
      (forall k :: 0 <= k < |digits| ==> IsDigit(digits[k])) && DigitsValue(digits) == |value| - MaxChips &&
      (|digits| > 1 ==> digits[0] != '0')
  {
    if |value| > MaxChips then
      var n := NatToString(|value| - MaxChips);
      var s := "+" + n + " more";
      assert s[1..|s| - 5] == n;
      assert s[|s| - 5..] == " more";
      NatToStringValue(|value| - MaxChips);
      Some(s)
    else None
  }

  /** The chips and the number in the note together account for every selected name. */
  lemma ChipsAndNoteCoverSelection(value: seq<string>)
    ensures Chips(value) + value[|Chips(value)|..] == value
    ensures MoreNote(value).None? ==> Chips(value) == value
    ensures MoreNote(value).Some? ==> |Chips(value)| == MaxChips && |Chips(value)| + (|value| - MaxChips) == |value|
  {
    assert value[..|Chips(value)|] + value[|Chips(value)|..] == value;
  }

  // ---------------------------------------------------------------- open and close

  /** Where a mouse-down on the document lands: nowhere, inside the widget, or outside it. */
  datatype Target = NoTarget | Inside | Outside

  /** The events that can change `open`. */
  datatype OpenEvent = ToggleButton | CloseButton | KeyDown(key: string) | MouseDown(target: Target)

  /**
    The next `open`: the toggle button flips it; Escape (while open), a
    mouse-down outside (while open) and the Close button set it to false;
    nothing else changes it. Only the toggle button can open the popover.
   */
  function NextOpen(open: bool, e: OpenEvent): (r: bool)
    ensures e == ToggleButton ==> r == !open
    ensures e != ToggleButton ==> (r ==> open)
    ensures (e == CloseButton || e == KeyDown("Escape") || e == MouseDown(Outside)) ==> !r
    ensures (e == MouseDown(Inside) || e == MouseDown(NoTarget) || (e.KeyDown? && e.key != "Escape")) ==> r == open
  {
    match e
    case ToggleButton => !open
    case CloseButton => false
    case KeyDown(key) => if !open then open else if key == "Escape" then false else open
    case MouseDown(t) => if !open then open else if t == Outside then false else open
  }

  // ---------------------------------------------------------------- the widget

  class Widget {
    /** Props handed down by the page. */
    var communities: seq<string>
    var selected: seq<string>
    /** `useSearchParams()`: the query of the current URL. */
    var params: Params
    /** Local state. */
    var value: seq<string>
    var open: bool
    var query: string
    /** Every `router.push`, in the order made; the last one is the pending navigation. */
    var pushes: seq<Params>

    /**
      First render and the mount effect: the state starts closed with an
      empty query and `InitialValue(selected)`; when the URL lacks a
      `community` value, the defaults are pushed, once.
     */
    constructor (communities: seq<string>, selected: seq<string>, params: Params)
      ensures this.communities == communities && this.selected == selected && this.params == params
      ensures value == InitialValue(selected) && !open && query == ""
      ensures pushes == if LacksCommunity(params) then [ApplyParams(params, DefaultCommunities)] else []
    {
      this.communities := communities;
      this.selected := selected;
      this.params := params;
      value := InitialValue(selected);
      open := false;
      query := "";
      pushes := [];
      new;
      if LacksCommunity(params) {
        Apply(DefaultCommunities);
      }
    }

    /** The params of the last push, if there was one. */
    function LastPushed(): (r: Option<Params>)
      reads this
      ensures r.Some? <==> |pushes| > 0
      ensures r.Some? ==> r.value == pushes[|pushes| - 1]
    {
      if |pushes| == 0 then None else Some(pushes[|pushes| - 1])
    }

    /** `apply(next)`: push the current params with the selection written in. */
    method Apply(next: seq<string>)
      modifies this`pushes
      ensures pushes == old(pushes) + [ApplyParams(params, next)]
    {
      var copy := params;
      if |next| == 0 {
        copy := Delete(copy, CommunityParam);
      } else {
        copy := Set(copy, CommunityParam, JoinCommas(next));
      }
      pushes := pushes + [copy];
    }

    /** `toggleCommunity(name)`. */
    method ToggleCommunity(name: string)
      modifies this`value, this`pushes
      ensures value == Toggle(old(value), name)
      ensures pushes == old(pushes) + [ApplyParams(params, value)]
      ensures NoDup(old(value)) ==> NoDup(value)
    {
      var next := Toggle(value, name);
      value := next;
      Apply(next);
    }

    /** `clearAll()`: nothing selected, and no `community` pair in the pushed params. */
    method ClearAll()
      modifies this`value, this`pushes
      ensures value == []
      ensures pushes == old(pushes) + [ApplyParams(params, [])]
      ensures GetAll(pushes[|pushes| - 1], CommunityParam) == []
    {
      value := [];
      Apply([]);
    }

    /** The search box's `onChange`. */
    method SetQuery(q: string)
      modifies this`query
      ensures query == q
    {
      query := q;
    }

    /** The toggle button: the only handler that can open the popover. */
    method OnToggleButton()
      modifies this`open
      ensures open == NextOpen(old(open), ToggleButton) && open == !old(open)
    {
      open := NextOpen(open, ToggleButton);
    }

    /** The Close button. */
    method OnCloseButton()
      modifies this`open
      ensures open == NextOpen(old(open), CloseButton) && !open
    {
      open := NextOpen(open, CloseButton);
    }

    /** The document `keydown` listener. */
    method OnKeyDown(key: string)
      modifies this`open
      ensures open == NextOpen(old(open), KeyDown(key))
      ensures open ==> old(open)
    {
      open := NextOpen(open, KeyDown(key));
    }

    /** The document `mousedown` listener. */
    method OnMouseDown(target: Target)
      modifies this`open
      ensures open == NextOpen(old(open), MouseDown(target))
      ensures open ==> old(open)
    {
      open := NextOpen(open, MouseDown(target));
    }

    /**
      A re-render with new props and a new URL (after a navigation): the
      props and params are replaced and the sync effect applies; the local
      `open`, `query` and the push record are untouched, and the mount effect
      does not run again.
     */
    method Rerender(communities: seq<string>, selected: seq<string>, params: Params)
      modifies this`communities, this`selected, this`params, this`value
      ensures this.communities == communities && this.selected == selected && this.params == params
      ensures value == SyncValue(old(value), selected)
    {
      this.communities := communities;
      this.selected := selected;
      this.params := params;
      value := SyncValue(value, selected);
    }
  }

  // ---------------------------------------------------------------- worked examples

  /**
    The picklist keeps a name with surrounding blanks as it is, but the page
    trims what it reads back: choosing " " + name pushes `community= name`,
    which selects `name`, a name the picklist does not offer.
   */
  lemma UntrimmedNameDoesNotRoundTrip(ps: Params, name: string)
    requires Transportable(name)
    ensures [' '] + name in Page.CommunityPicklist(Some([Some([' '] + name)]))
    ensures Page.ParseCommunityParam(Entry(ApplyParams(ps, [[' '] + name]), CommunityParam)) == [name]
  {
    var padded := [' '] + name;
    PaddedTrim(name);
    assert JoinCommas([padded]) == padded;
    assert Entry(ApplyParams(ps, [padded]), CommunityParam) == One(padded);
    PaddedReadsBack(name);
  }

  /**
    A picklist name may hold a comma, but the page splits what it reads
    back: choosing `a,b` pushes `community=a,b`, which selects the two
    names `a` and `b`.
   */
  lemma CommaNameSplitsInTwo(ps: Params, a: string, b: string)
    requires Transportable(a) && Transportable(b) && a != b
    ensures a + [Comma] + b in Page.CommunityPicklist(Some([Some(a + [Comma] + b)]))
    ensures Page.ParseCommunityParam(Entry(ApplyParams(ps, [a + [Comma] + b]), CommunityParam)) == [a, b]
  {
    var n := a + [Comma] + b;
    CommaNameNotBlank(a, b);
    assert JoinCommas([n]) == n;
    assert Entry(ApplyParams(ps, [n]), CommunityParam) == One(n);
    assert JoinCommas([a, b]) == n;
    CandidatesOfJoin([a, b]);
    Page.ParseIsDedupOfCandidates(One(n));
    DedupOfNoDup([a, b]);
  }

  lemma CommaNameNotBlank(a: string, b: string)
    ensures Trim(a + [Comma] + b) != ""
  {
    var n := a + [Comma] + b;
    assert n[|a|] == Comma && !IsSpace(Comma);
    TrimEmptyIff(n);
  }

  /** The page reads a comma-free value with a leading blank as its trim. */
  lemma PaddedReadsBack(name: string)
    requires Transportable(name)
    ensures Page.ParseCommunityParam(One([' '] + name)) == [name]
  {
    PaddedTrim(name);
    PaddedCommaFree(name);
    CandidatesOfCommaFree([' '] + name);
    ParseOfOneCandidate(One([' '] + name), name);
  }

  lemma PaddedTrim(name: string)
    requires Transportable(name)
    ensures Trim([' '] + name) == name
  {
    TrimDropsLeadingSpace(' ', name);
    TrimOfTrimmed(name);
  }

  lemma PaddedCommaFree(name: string)
    requires Transportable(name)
    ensures CommaFree([' '] + name)
  {
    var padded := [' '] + name;
    assert forall k :: 0 < k < |padded| ==> padded[k] == name[k - 1];
  }

  /** A value with a single candidate selects exactly that name. */
  lemma ParseOfOneCandidate(v: ParamValue, name: string)
    requires Page.Candidates(v) == [name]
    ensures Page.ParseCommunityParam(v) == [name]
  {
    Page.ParseIsDedupOfCandidates(v);
    DedupOfNoDup([name]);
  }

  /**
    A first visit without a `community` parameter, then Clear and a click on
    "Alpha": the defaults are shown and pushed as
    `community=The Skyline Collection,Three Hills`, and the click selects
    exactly "Alpha" and pushes `community=Alpha`.
   */
  method FirstVisitScenario()
  {
    var w := new Widget(["Alpha", "Beta", "Gamma"], [], []);
    assert w.value == DefaultCommunities;
    assert JoinCommas(DefaultCommunities) == "The Skyline Collection,Three Hills";
    assert w.pushes == [[(CommunityParam, "The Skyline Collection,Three Hills")]];
    w.ClearAll();
    w.ToggleCommunity("Alpha");
    assert w.value == ["Alpha"];
    assert w.LastPushed() == Some([(CommunityParam, "Alpha")]);
  }
}
