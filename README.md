# Community filter of the sales dashboard, in Dafny

This project models the two pieces of logic in the sales dashboard that are
more than calls into the hosted database. Both are about the `community`
query parameter.

* **The server page** (`app/page.tsx`). It turns the `community` parameter
  into a list of selected names (`parseCommunityParam`). It reads the
  optional `status` filter (`asNonEmptyString`) and whitelists `sort` and
  `dir`. It also builds the distinct, sorted picklist of community names
  from the rows the backend returns.
* **The community filter widget** (`app/CommunityFilter.tsx`). This is a
  client component. It holds the selection `value`, the popover flag `open`
  and the search text `query`. Its handlers toggle a name, clear the
  selection and write it back into the URL (`apply`). It filters the
  candidate list by the search text, renders a label and chip summary, and
  opens and closes the popover.

Modules, one per file:

| file | module | contents |
|---|---|---|
| `wrappers.dfy` | `Wrappers` | `Option` |
| `text.dfy` | `Text` | ASCII `trim` and `toLowerCase`, `includes`, `split(",")` and `join(",")` with their round-trip lemmas, decimal rendering of a count |
| `lists.dfy` | `Lists` | `Array.from(new Set(xs))` (`Dedup`), `filter(v => v !== x)` (`RemoveAll`), subsequences, duplicate-freedom |
| `order.dfy` | `Order` | the string order used for `localeCompare`, proved a total order; `Sort` as a sorted permutation; uniqueness of sorted permutations |
| `search_params.dfy` | `SearchParams` | the query as an ordered name/value pair list, with `get`, `getAll`, `set` and `delete` as section 6.2 (the URLSearchParams class) of the WHATWG URL Standard defines them; the `string \| string[] \| undefined` value a Next.js page receives for one parameter (`Entry`) |
| `page.dfy` | `Page` | `parseCommunityParam`, `asNonEmptyString`, `sort`/`dir`, the picklist |
| `community_filter.dfy` | `CommunityFilter` | the widget's rules as functions, the `Widget` class with one method per handler, and the lemmas that join the widget to the page |

How the model represents the source:

* A search-params value (`string | string[] | undefined`) is `ParamValue`:
  `Absent`, `One(s)` or `Many(ss)`. JavaScript's `!v` is true for `Absent`
  and `One("")` only, because every array is truthy.
* A row's `community_name` is `Some(s)` for a string and `None` for anything
  else. The rows themselves are `Some(rows)`, an empty result being
  `Some([])`; `None` stands for `communityRows` being null, which
  `communityRows ?? []` turns into no rows. A failed query never reaches the
  picklist: the page returns its error view first (app/page.tsx:79-85).
* The page's reading of a URL is `Entry(params, name)`. No pair gives
  `Absent`, one pair gives `One`, more pairs give `Many`.
* `router.push` is not performed. Each call appends the pushed pair list to
  `Widget.pushes`, so the last element is "the last pushed params". The URL
  the widget reads (`params`, from `useSearchParams`) changes only when
  `Rerender` models the re-render a navigation causes.
* The mount effect (`useEffect(..., [])`) is part of the constructor. It
  therefore runs exactly once per widget.
* `localeCompare` is lexicographic order on character codes (`Order.Leq`).
  `trim` strips ASCII whitespace. `toLowerCase` lowers ASCII letters.

An absent and an empty `community` parameter are treated alike. The
source's comments speak of "if URL has no community param, write defaults
once" (app/CommunityFilter.tsx:72) and of Clear clearing for good
(app/CommunityFilter.tsx:68-69), and the model follows what the code does:

* `parseCommunityParam` returns `[]` for both (app/page.tsx:27). The
  initial value tests only the length of `selected`
  (app/CommunityFilter.tsx:21-25). The mount effect tests
  `!sp.get("community")`, which holds for `null` and for `""`
  (app/CommunityFilter.tsx:74). `EmptyParamActsAsMissing` states this.
* `clearAll` deletes the parameter. Within the same widget the sync rule keeps
  the empty selection (`SyncAfterApply`), so Clear does clear. On a fresh
  page load, though, the URL lacks the parameter again, so the defaults come
  back.

Behaviour of the code as written that the lemmas make explicit:

* The mount effect looks only at the first `community` value. With
  `?community=&community=Alpha`, the page selects "Alpha", but the effect
  still pushes the defaults over it (`FirstEmptyValueHidesSelection`).
* The picklist keeps names untrimmed, and a name may contain a comma.
  Neither survives the trip through the URL: a name with a leading blank
  comes back without it (`UntrimmedNameDoesNotRoundTrip`), and a name `a,b`
  comes back as the two names `a` and `b` (`CommaNameSplitsInTwo`). The
  round trip is exact only for names that are non-empty, trimmed and
  comma-free (`ApplyThenParseExact`).

## Model

| member | source | states |
|---|---|---|
| `Text.Trim` | app/page.tsx:36 | the result has no whitespace at either end and is no longer than the input |
| `Text.TrimStrips` | app/page.tsx:36 | the trim is the part of the input between a whitespace-only prefix and a whitespace-only suffix |
| `Text.TrimUnique` | app/page.tsx:36 | any string without whitespace at either end that the input strips to is the trim, so the two properties above determine `trim` |
| `Text.TrimOfTrimmed` | app/page.tsx:36 | trimming a string that has no surrounding whitespace leaves it unchanged |
| `Text.TrimIdempotent` | app/CommunityFilter.tsx:32 | trimming twice equals trimming once |
| `Text.TrimDropsLeadingSpace` | app/page.tsx:36 | a leading whitespace character does not change the trim |
| `Text.TrimEmptyIff` | app/page.tsx:16-17 | the trim is empty exactly when the string is all whitespace |
| `Text.ToLower` | app/CommunityFilter.tsx:32-34 | lower-casing keeps the length and lowers each character independently |
| `Text.Contains` | app/CommunityFilter.tsx:34 | `includes` can only hold for a needle no longer than the haystack, and always holds for the empty needle; `ContainsIff` gives its exact meaning |
| `Text.ContainsIff` | app/CommunityFilter.tsx:34 | `includes` holds iff the needle occurs at some position of the haystack |
| `Text.SplitCommas` | app/page.tsx:31 | `split(",")` always yields at least one piece, and no piece contains a comma |
| `Text.JoinCommas` | app/CommunityFilter.tsx:43 | `join(",")` starts with the first name; `SplitJoin` and `JoinSplit` make it the inverse of `split(",")` |
| `Text.SplitCommaFree` | app/page.tsx:31 | a comma-free string splits into itself alone |
| `Text.SplitAppend` | app/page.tsx:30-31 | splitting `a + "," + b` gives the pieces of `a` followed by the pieces of `b` |
| `Text.JoinSplit` | app/CommunityFilter.tsx:43 | joining the pieces of a string with commas gives the string back |
| `Text.SplitJoin` | app/CommunityFilter.tsx:43 | splitting the comma-join of one or more comma-free names gives back the names |
| `Text.NatToString` | app/CommunityFilter.tsx:103 | the rendering of a count is a non-empty digit string with no leading zero |
| `Text.NatToStringValue` | app/CommunityFilter.tsx:103 | the digits of the rendered count read back as the count |
| `Lists.Dedup` | app/page.tsx:33-39 | `Array.from(new Set(xs))` has no duplicates, has exactly the elements of `xs`, and is no longer than `xs` |
| `Lists.DedupFirstOccurrenceOrder` | app/page.tsx:33-39 | the elements of the de-duplicated list appear in the order of their first occurrence in the input |
| `Lists.DedupOfNoDup` | app/page.tsx:33-39 | de-duplicating a duplicate-free list changes nothing |
| `Lists.RemoveAll` | app/CommunityFilter.tsx:51 | `filter(v => v !== name)` removes every occurrence of `name`, keeps each other element's count, and keeps the survivors in order |
| `Order.Leq` | app/CommunityFilter.tsx:52 | the comparison standing in for `localeCompare`; the four lemmas below prove it a total order |
| `Order.LeqReflexive` | app/CommunityFilter.tsx:52 | the comparison used for sorting is reflexive |
| `Order.LeqAntisymmetric` | app/CommunityFilter.tsx:52 | the comparison is antisymmetric |
| `Order.LeqTransitive` | app/CommunityFilter.tsx:52 | the comparison is transitive |
| `Order.LeqTotal` | app/CommunityFilter.tsx:52 | any two strings are comparable |
| `Order.Insert` | app/CommunityFilter.tsx:52 | inserting into a sorted list keeps it sorted and adds exactly the one element |
| `Order.Sort` | app/page.tsx:93 | `sort` returns a sorted permutation of its input |
| `Order.SortedUnique` | app/CommunityFilter.tsx:52 | two sorted lists with the same elements, counted with multiplicity, are equal |
| `Order.SortOfSorted` | app/CommunityFilter.tsx:52 | sorting a sorted list changes nothing |
| `Order.SubsequenceSorted` | app/CommunityFilter.tsx:51 | removing elements from a sorted list leaves it sorted |
| `SearchParams.Get` | app/CommunityFilter.tsx:74 | `get` is nothing exactly when no pair has the name, and otherwise the first value `getAll` lists |
| `SearchParams.Delete` | app/CommunityFilter.tsx:41 | after `delete(name)` no pair named `name` remains |
| `SearchParams.DeleteEffect` | app/CommunityFilter.tsx:41 | `delete` keeps every pair with another name, with its count and in order |
| `SearchParams.Set` | app/CommunityFilter.tsx:43 | after `set(name, value)` the only pair named `name` holds `value`, and deleting `name` gives the same list as before the `set` |
| `SearchParams.SetShape` | app/CommunityFilter.tsx:43 | `set` keeps the pairs before the first match, puts the new pair there, and drops later pairs with the name |
| `SearchParams.SetEffect` | app/CommunityFilter.tsx:43 | after `set`, exactly one pair has the name and it holds the new value; the other pairs are unchanged and in order; with no earlier match, the pair is appended |
| `SearchParams.Entry` | app/page.tsx:7 | the page gets nothing when no pair has the name, the single value for one pair, and the list of all values, at least two, for more |
| `Page.EntryValues` | app/page.tsx:28 | `Array.isArray(v) ? v : [v]` of what the page gets lists exactly the values of the pairs with the name, in URL order |
| `Page.Falsy` | app/page.tsx:27 | `!v` holds only for a value that lists no strings or only `""`, and never for an array |
| `Page.SplitAll` | app/page.tsx:31 | `flatMap(s => s.split(","))` gives at least one piece per value, and no piece holds a comma |
| `Page.Candidates` | app/page.tsx:35-37 | every string fed to the `Set` is non-empty and trimmed; `CandidatesMembers` says exactly which strings |
| `Page.TrimAll` | app/page.tsx:36 | `map(s => s.trim())` keeps the length and trims each element |
| `Page.DropEmpty` | app/page.tsx:37 | `filter(s => s.length > 0)` removes every empty string, keeps each other element's count, and keeps the survivors in order |
| `Page.ParseCommunityParam` | app/page.tsx:26-40 | the result is `[]` for `undefined` and `""`, has no duplicates, and every element is non-empty and trimmed |
| `Page.SplitAllMembers` | app/page.tsx:28-31 | a string is a piece of the flat-mapped split iff it is a piece of one of the values |
| `Page.TrimAllMembers` | app/page.tsx:36 | a string is in the trimmed list iff it is the trim of some element |
| `Page.CandidatesMembers` | app/page.tsx:28-37 | a string enters the `Set` iff it is the non-empty trim of some comma-separated piece of some value |
| `Page.FalsyHasNoCandidates` | app/page.tsx:27 | the `!v` early return agrees with the general pipeline: a falsy value yields no candidates |
| `Page.ParseIsDedupOfCandidates` | app/page.tsx:27-39 | for every input the result is the de-duplicated candidate list |
| `Page.ParseMembers` | app/page.tsx:28-37 | soundness and completeness: a string is selected iff it is the non-empty trim of some piece of some value |
| `Page.ParseFirstOccurrenceOrder` | app/page.tsx:33-39 | the selection lists names in the order of their first occurrence among the trimmed, non-empty pieces |
| `Page.SplitJoinAll` | app/page.tsx:31 | splitting a comma-join is the flat-map of splitting each part |
| `Page.RepeatedParamsAsJoined` | app/page.tsx:28-31 | repeated `community` parameters parse the same as one comma-joined parameter, for any number of values |
| `Page.TwoParamsAsJoined` | app/page.tsx:30-31 | `parse([a, b]) == parse(a + "," + b)` |
| `Page.AsNonEmptyString` | app/page.tsx:14-18 | nothing for a non-string or blank value; otherwise the trim, which is non-empty and trimmed |
| `Page.SortKey` | app/page.tsx:58-61 | the key is always "price" or "scraped_at", and it is "price" exactly when the parameter is exactly "price" |
| `Page.SortDir` | app/page.tsx:63 | the direction is "asc" or "desc", and it is "asc" exactly when the parameter is exactly "asc" |
| `Page.KeepNames` | app/page.tsx:89-91 | a name is kept iff some row holds it as a string that is not blank after trimming |
| `Page.CommunityPicklist` | app/page.tsx:87-93 | the picklist is strictly increasing (sorted, no duplicates) and holds exactly the names of rows that are not blank after trimming |
| `CommunityFilter.InitialValue` | app/CommunityFilter.tsx:22-25 | the initial value is `selected` when that is non-empty, otherwise the defaults; it is never empty |
| `CommunityFilter.LacksCommunity` | app/CommunityFilter.tsx:74 | `!sp.get("community")` holds iff no `community` pair exists or the first one is empty |
| `CommunityFilter.SyncValue` | app/CommunityFilter.tsx:64-70 | a non-empty `selected` overwrites the value; an empty one leaves it unchanged |
| `CommunityFilter.Toggle` | app/CommunityFilter.tsx:49-53 | a selected name is removed everywhere, and the rest keep their counts and order; an unselected name is added and the result is a sorted permutation of `value + [name]`; duplicate-freedom is preserved |
| `CommunityFilter.ToggleTwice` | app/CommunityFilter.tsx:49-53 | on a sorted, duplicate-free selection, toggling a name twice restores the selection, in both cases |
| `CommunityFilter.RemoveThenAdd` | app/CommunityFilter.tsx:50-52 | removing a selected name and adding it back, with the re-sort, restores a sorted, duplicate-free selection |
| `CommunityFilter.AddThenRemove` | app/CommunityFilter.tsx:50-52 | adding an unselected name, with the re-sort, and removing it again restores a sorted selection |
| `CommunityFilter.ApplyParams` | app/CommunityFilter.tsx:37-47 | an empty selection leaves no `community` pair; otherwise exactly one remains, holding the comma-join; pairs with other names are unchanged and in order |
| `CommunityFilter.TrimAllOfTrimmed` | app/page.tsx:36 | trimming a list of trimmed names changes nothing |
| `CommunityFilter.DropEmptyOfNonEmpty` | app/page.tsx:37 | dropping empties from a list of non-empty names changes nothing |
| `CommunityFilter.CandidatesOfJoin` | app/page.tsx:31-37 | the candidates of the comma-join of non-empty, trimmed, comma-free names are those names |
| `CommunityFilter.ApplyThenParse` | app/CommunityFilter.tsx:37-47 | the page reads back from the pushed params the selection with repeats dropped, when every name is non-empty, trimmed and comma-free |
| `CommunityFilter.ApplyThenParseExact` | app/CommunityFilter.tsx:43 | for a duplicate-free selection of such names the round trip gives back the selection exactly |
| `CommunityFilter.SyncAfterApply` | app/CommunityFilter.tsx:64-70 | after a push and the re-render it causes, the sync rule leaves the selection as it was, including the empty selection after `clearAll` |
| `CommunityFilter.EmptyParamActsAsMissing` | app/CommunityFilter.tsx:73-76 | an empty `community=` behaves like a missing parameter: the mount test fires, and the initial value is the defaults |
| `CommunityFilter.CandidatesOfCommaFree` | app/page.tsx:31-37 | a single comma-free value contributes its trim as the only candidate, or nothing when the trim is empty |
| `CommunityFilter.ParseOfOneCandidate` | app/page.tsx:33-39 | a value with exactly one candidate selects exactly that name |
| `CommunityFilter.FirstEmptyValueHidesSelection` | app/CommunityFilter.tsx:74 | with `community=&community=name` the mount test fires although the page selects `name` |
| `CommunityFilter.Needle` | app/CommunityFilter.tsx:32-33 | the lowered, trimmed query is as long as the trimmed query, and empty exactly when the query is blank |
| `CommunityFilter.KeepMatching` | app/CommunityFilter.tsx:34 | the kept names form a subsequence, and each name occurs as often as in the input if it matches and not at all otherwise |
| `CommunityFilter.Filtered` | app/CommunityFilter.tsx:31-35 | a blank query returns `communities` unchanged; otherwise the result is the subsequence of names whose lower-case form contains the lower-cased, trimmed query |
| `CommunityFilter.ButtonLabel` | app/CommunityFilter.tsx:102-103 | the label is "Communities (All)" iff nothing is selected; otherwise it is "Communities (n)", where n is written in decimal without a leading zero and reads back as the number of selected names |
| `CommunityFilter.Chips` | app/CommunityFilter.tsx:120 | the chips are the first `min(6, n)` selected names |
| `CommunityFilter.MoreNote` | app/CommunityFilter.tsx:137-139 | "+N more" is present iff more than six names are selected, and N is written in decimal without a leading zero and reads back as `n - 6` |
| `CommunityFilter.ChipsAndNoteCoverSelection` | app/CommunityFilter.tsx:118-141 | the chips followed by the hidden rest make up the selection; with no note, every name is a chip; with the note, the chips and N add up to `n` |
| `CommunityFilter.NextOpen` | app/CommunityFilter.tsx:81-109 | the toggle button flips `open`; no other event can set it to true; Close, Escape and an outside mouse-down set it to false; a mouse-down inside or without a target and any other key leave it as it was |
| `CommunityFilter.UntrimmedNameDoesNotRoundTrip` | app/page.tsx:87-93 | the picklist offers `" " + name`, but pushing it selects `name` on the page |
| `CommunityFilter.CommaNameSplitsInTwo` | app/page.tsx:87-93 | the picklist offers a name `a,b`, but pushing it selects the two names `a` and `b` on the page |
| `CommunityFilter.CommaNameNotBlank` | app/page.tsx:91 | a name holding a comma is never blank after trimming, so the picklist keeps it |
| `CommunityFilter.PaddedReadsBack` | app/page.tsx:26-40 | the page reads a comma-free value with one leading blank as the name without it |
| `CommunityFilter.Widget.constructor` | app/CommunityFilter.tsx:18-78 | the widget starts closed with an empty query and `InitialValue(selected)`; the defaults are pushed once when `get("community")` is null or "" |
| `CommunityFilter.Widget.LastPushed` | app/CommunityFilter.tsx:46 | the last pushed params, present iff anything was pushed |
| `CommunityFilter.Widget.Apply` | app/CommunityFilter.tsx:37-47 | one push is recorded, and it holds `ApplyParams` of the current params |
| `CommunityFilter.Widget.ToggleCommunity` | app/CommunityFilter.tsx:49-56 | the value becomes `Toggle(value, name)` and that value is pushed; duplicate-freedom is kept |
| `CommunityFilter.Widget.ClearAll` | app/CommunityFilter.tsx:58-61 | the value becomes empty, and the pushed params hold no `community` pair |
| `CommunityFilter.Widget.SetQuery` | app/CommunityFilter.tsx:150 | the query becomes the typed text |
| `CommunityFilter.Widget.OnToggleButton` | app/CommunityFilter.tsx:109 | `open` flips |
| `CommunityFilter.Widget.OnCloseButton` | app/CommunityFilter.tsx:198 | `open` becomes false |
| `CommunityFilter.Widget.OnKeyDown` | app/CommunityFilter.tsx:93-100 | `open` follows `NextOpen` and can only go from true to false |
| `CommunityFilter.Widget.OnMouseDown` | app/CommunityFilter.tsx:81-90 | `open` follows `NextOpen` and can only go from true to false |
| `CommunityFilter.Widget.Rerender` | app/CommunityFilter.tsx:64-70 | new props and URL replace the old ones, and the value follows the sync rule |

`CommunityFilter.FirstVisitScenario` walks through a first visit with no
`community` parameter. The defaults are shown and pushed as
`community=The Skyline Collection,Three Hills`. After Clear, a click on
"Alpha" selects exactly "Alpha" and pushes `community=Alpha`.

## Left out

- Every backend query: building and running the queries, the user lookup
  and its redirect, and the error pages (app/page.tsx:43-48, 74-85, 98-140).
  These are calls into a foreign client library. Their results enter the
  model as parameters, such as the rows of `CommunityPicklist`.
- `toNumber` and the price, square-footage and date formatting
  (app/page.tsx:20-24, 199-222). These rely on floating point and locale
  formatting.
- The use of `status` and of the `sort`/`dir` choice in the query
  (app/page.tsx:119-129). Only how they are read from the URL is modelled.
- JSX rendering, the `{filtered.length} shown` line, "No matches.", refs, and
  the registration and removal of document listeners
  (app/CommunityFilter.tsx:80-100). Only the resulting state changes are kept.
- `pathname` and the URL string `router.push` receives. The pushed pair
  list is recorded instead. Percent-encoding and `URLSearchParams.toString()`
  and parsing are not modelled: the copy in `apply` is the pair list itself.
- The `disabled` state of the Clear button when nothing is selected.
  `ClearAll` can be called in any state.
- React's scheduling: when effects run, batching, and strict-mode double
  mounting. The mount effect runs once, inside the constructor.
- The authentication pages and route (app/login/page.tsx,
  app/login/LoginForm.tsx, app/reset-password/page.tsx,
  app/auth/signin/route.ts). They are thin wrappers over the auth client
  with no logic of their own.
- CommunityFilter.Toggle: sorts by lexicographic character-code order instead
  of locale-aware `localeCompare`. Locale collation is not modelled.
- Page.CommunityPicklist: sorts by the same lexicographic order instead of
  `localeCompare`.
- Text.Trim: strips only ASCII whitespace. JavaScript's `trim` also strips
  Unicode spaces and line terminators.
- Text.ToLower: lowers only the ASCII letters A to Z.
- CommunityFilter.ApplyThenParse: the round trip is stated only for names
  that are non-empty, trimmed and comma-free. For other names it fails as
  the code is written (see `UntrimmedNameDoesNotRoundTrip`).
