/**
  A URL query as the widget manipulates it: the ordered list of name/value
  pairs of a `URLSearchParams` object, with `get`, `getAll`, `set` and
  `delete` as section 6.2 (the URLSearchParams class) of the WHATWG URL
  Standard defines them, and the `string | string[] | undefined` view that
  Next.js gives a server page of one parameter.
 */
module SearchParams {
  import opened Wrappers
  import opened Lists

  type Pair = (string, string)
  type Params = seq<Pair>

  /** `getAll(name)`: the values of the pairs named `name`, in list order. */
  function GetAll(ps: Params, name: string): seq<string> {
    if |ps| == 0 then []
    else (if ps[0].0 == name then [ps[0].1] else []) + GetAll(ps[1..], name)
  }

  /** `get(name)`: the value of the first pair named `name`, or nothing (`null`). */
  function Get(ps: Params, name: string): (r: Option<string>)
    ensures r == None <==> GetAll(ps, name) == []
    ensures r.Some? ==> r.value == GetAll(ps, name)[0]
  {
    if |ps| == 0 then None
    else if ps[0].0 == name then Some(ps[0].1)
    else Get(ps[1..], name)
  }

  /** `delete(name)`: the list without its pairs named `name`. */
  function Delete(ps: Params, name: string): (r: Params)
    ensures GetAll(r, name) == []
  {
    if |ps| == 0 then []
    else if ps[0].0 == name then Delete(ps[1..], name)
    else [ps[0]] + Delete(ps[1..], name)
  }

  /**
    What `delete` keeps: each pair with another name keeps its number of
    occurrences, and the survivors keep their order.
   */
  lemma {:induction false} DeleteEffect(ps: Params, name: string)
    ensures forall p: Pair :: p.0 != name ==> multiset(Delete(ps, name))[p] == multiset(ps)[p]
    ensures IsSubsequence(Delete(ps, name), ps)
  {
    if |ps| > 0 {
      DeleteEffect(ps[1..], name);
      assert ps == [ps[0]] + ps[1..];
      var rest := Delete(ps[1..], name);
      if ps[0].0 != name {
        assert Delete(ps, name)[1..] == rest;
      }
    }
  }

  /** The pairs before the first one named `name` (all of them when there is none). */
  function Before(ps: Params, name: string): (r: Params)
    ensures |r| <= |ps| && r == ps[..|r|]
    ensures GetAll(r, name) == []
    ensures |r| < |ps| <==> GetAll(ps, name) != []
    ensures |r| < |ps| ==> ps[|r|].0 == name
  {
    if |ps| == 0 || ps[0].0 == name then []
    else [ps[0]] + Before(ps[1..], name)
  }

  /**
    `set(name, value)`: the first pair named `name` takes the new value and
    the later ones are removed; with no such pair, a new one is appended.
   */
  function Set(ps: Params, name: string, value: string): (r: Params)
    ensures GetAll(r, name) == [value]
    ensures Delete(r, name) == Delete(ps, name)
  {
    if |ps| == 0 then [(name, value)]
    else if ps[0].0 == name then
      var d := Delete(ps[1..], name);
      var r := [(name, value)] + d;
      assert r[1..] == d;
      DeleteAbsent(d, name);
      r
    else
      var rest := Set(ps[1..], name, value);
      var r := [ps[0]] + rest;
      assert r[1..] == rest;
      r
  }

  lemma {:induction false} GetAllAppend(a: Params, b: Params, name: string)
    ensures GetAll(a + b, name) == GetAll(a, name) + GetAll(b, name)
  {
    if |a| > 0 {
      assert (a + b)[0] == a[0] && (a + b)[1..] == a[1..] + b;
      GetAllAppend(a[1..], b, name);
    } else {
      assert a + b == b;
    }
  }

  lemma {:induction false} DeleteAppend(a: Params, b: Params, name: string)
    ensures Delete(a + b, name) == Delete(a, name) + Delete(b, name)
  {
    if |a| > 0 {
      assert (a + b)[0] == a[0] && (a + b)[1..] == a[1..] + b;
      DeleteAppend(a[1..], b, name);
    } else {
      assert a + b == b;
    }
  }

  /** A list with no pair named `name` is unchanged by deleting `name`. */
  lemma {:induction false} DeleteAbsent(ps: Params, name: string)
    requires GetAll(ps, name) == []
    ensures Delete(ps, name) == ps
  {
    if |ps| > 0 {
      DeleteAbsent(ps[1..], name);
      assert ps == [ps[0]] + ps[1..];
    }
  }

  /** `set` in closed form: the pairs before the first match, the new pair, then the rest without `name`. */
  lemma {:induction false} SetShape(ps: Params, name: string, value: string)
    ensures Set(ps, name, value) == Before(ps, name) + [(name, value)] + Delete(ps[|Before(ps, name)|..], name)
  {
    if |ps| > 0 && ps[0].0 != name {
      SetShape(ps[1..], name, value);
      assert ps[|Before(ps, name)|..] == ps[1..][|Before(ps[1..], name)|..];
    }
  }

  /**
    The effect of `set`: exactly one pair named `name` remains, holding
    `value`; the other pairs are those of `ps`, in the same order; the pairs
    in front of the first old match (all pairs, when there was none) stay in
    front of the new one.
   */
  lemma SetEffect(ps: Params, name: string, value: string)
    ensures GetAll(Set(ps, name, value), name) == [value]
    ensures Delete(Set(ps, name, value), name) == Delete(ps, name)
    ensures |Set(ps, name, value)| > |Before(ps, name)|
    ensures Set(ps, name, value)[..|Before(ps, name)|] == Before(ps, name)
    ensures Set(ps, name, value)[|Before(ps, name)|] == (name, value)
    ensures GetAll(ps, name) == [] ==> Set(ps, name, value) == ps + [(name, value)]
  {
    var b := Before(ps, name);
    var tail := ps[|b|..];
    var d := Delete(tail, name);
    SetShape(ps, name, value);
    GetAllAppend(b + [(name, value)], d, name);
    GetAllAppend(b, [(name, value)], name);
    DeleteAppend(b + [(name, value)], d, name);
    DeleteAppend(b, [(name, value)], name);
    DeleteAbsent(b, name);
    DeleteAbsent(d, name);
    assert Delete([(name, value)], name) == [];
    assert ps == b + tail;
    DeleteAppend(b, tail, name);
    if GetAll(ps, name) == [] {
      assert tail == [];
    }
  }

  // ---------------------------------------------------------------- the page's view

  /** One query parameter as a Next.js page receives it: `string | string[] | undefined`. */
  datatype ParamValue = Absent | One(s: string) | Many(ss: seq<string>)

  /** Next.js gives a page no entry, the value, or the array of every value, for 0, 1 or more pairs. */
  function Entry(ps: Params, name: string): (v: ParamValue)
    ensures v == Absent <==> GetAll(ps, name) == []
    ensures v.One? ==> GetAll(ps, name) == [v.s]
    ensures v.Many? ==> GetAll(ps, name) == v.ss && |v.ss| >= 2
  {
    var vs := GetAll(ps, name);
    if |vs| == 0 then Absent
    else if |vs| == 1 then One(vs[0])
    else Many(vs)
  }
}
