/**
  The ordering used for `sort((a, b) => a.localeCompare(b))`. Locale-aware
  collation is replaced by plain lexicographic order on character codes,
  which is a total order just as `localeCompare` is meant to be; sorting is
  specified by "sorted and a permutation".
 */
module Order {
  import opened Lists

  /** Lexicographic order: `a` is a prefix of `b`, or `a` is smaller at the first difference. */
  predicate Leq(a: string, b: string) {
    |a| == 0 || (|b| > 0 && (a[0] < b[0] || (a[0] == b[0] && Leq(a[1..], b[1..]))))
  }

  lemma {:induction false} LeqReflexive(a: string)
    ensures Leq(a, a)
  {
    if |a| > 0 {
      LeqReflexive(a[1..]);
    }
  }

  lemma {:induction false} LeqAntisymmetric(a: string, b: string)
    requires Leq(a, b) && Leq(b, a)
    ensures a == b
  {
    if |a| > 0 && |b| > 0 {
      LeqAntisymmetric(a[1..], b[1..]);
      assert a == [a[0]] + a[1..] && b == [b[0]] + b[1..];
    }
  }

  lemma {:induction false} LeqTransitive(a: string, b: string, c: string)
    requires Leq(a, b) && Leq(b, c)
    ensures Leq(a, c)
  {
    if |a| > 0 && a[0] == b[0] && b[0] == c[0] {
      LeqTransitive(a[1..], b[1..], c[1..]);
    }
  }

  lemma {:induction false} LeqTotal(a: string, b: string)
    ensures Leq(a, b) || Leq(b, a)
  {
    if |a| > 0 && |b| > 0 && a[0] == b[0] {
      LeqTotal(a[1..], b[1..]);
    }
  }

  predicate Sorted(s: seq<string>) {
    forall i, j :: 0 <= i < j < |s| ==> Leq(s[i], s[j])
  }

  /** Strictly increasing: sorted and without repeats. */
  predicate StrictlySorted(s: seq<string>) {
    forall i, j :: 0 <= i < j < |s| ==> Leq(s[i], s[j]) && s[i] != s[j]
  }

  lemma SortedNoDupIsStrict(s: seq<string>)
    requires Sorted(s) && NoDup(s)
    ensures StrictlySorted(s)
  {
  }

  /** Insert `x` into a sorted sequence, before the first element it does not exceed. */
  function Insert(x: string, s: seq<string>): (r: seq<string>)
    requires Sorted(s)
    ensures Sorted(r)
    ensures multiset(r) == multiset(s) + multiset{x}
  {
    if |s| == 0 then [x]
    else if Leq(x, s[0]) then
      forall j | 0 <= j < |s| ensures Leq(x, s[j]) {
        if j > 0 { LeqTransitive(x, s[0], s[j]); }
      }
      assert s == [s[0]] + s[1..];
      [x] + s
    else
      LeqTotal(x, s[0]);
      var t := Insert(x, s[1..]);
      assert s == [s[0]] + s[1..];
      forall k | 0 <= k < |t| ensures Leq(s[0], t[k]) {
        assert t[k] in multiset(t);
        if t[k] != x {
          assert t[k] in s[1..];
        }
      }
      [s[0]] + t
  }

  /** The result of `sort`: the same elements, in order. */
  function Sort(s: seq<string>): (r: seq<string>)
    ensures Sorted(r)
    ensures multiset(r) == multiset(s)
    ensures |r| == |s|
  {
    if |s| == 0 then []
    else
      assert s == [s[0]] + s[1..];
      Insert(s[0], Sort(s[1..]))
  }

  /** The head of a sorted sequence is below each of its elements. */
  lemma SortedHeadLeq(a: seq<string>, x: string)
    requires Sorted(a) && x in a
    ensures Leq(a[0], x)
  {
    var i :| 0 <= i < |a| && a[i] == x;
    if i == 0 {
      LeqReflexive(x);
    }
  }

  lemma TailMultiset(a: seq<string>)
    requires |a| > 0
    ensures multiset(a[1..]) == multiset(a) - multiset{a[0]}
  {
    assert a == [a[0]] + a[1..];
  }

  /** A sorted sequence is determined by its multiset of elements. */
  lemma {:induction false} SortedUnique(a: seq<string>, b: seq<string>)
    requires Sorted(a) && Sorted(b) && multiset(a) == multiset(b)
    ensures a == b
    decreases |a|
  {
    assert |a| == |multiset(a)| == |b|;
    if |a| > 0 {
      assert a[0] in multiset(b) && b[0] in multiset(a);
      SortedHeadLeq(b, a[0]);
      SortedHeadLeq(a, b[0]);
      LeqAntisymmetric(a[0], b[0]);
      TailMultiset(a);
      TailMultiset(b);
      SortedUnique(a[1..], b[1..]);
      assert a == [a[0]] + a[1..] && b == [b[0]] + b[1..];
    }
  }

  /** Sorting a sequence that is already sorted changes nothing. */
  lemma SortOfSorted(s: seq<string>)
    requires Sorted(s)
    ensures Sort(s) == s
  {
    SortedUnique(Sort(s), s);
  }

  /** Deleting elements keeps a sorted sequence sorted. */
  lemma {:induction false} SubsequenceSorted(r: seq<string>, s: seq<string>)
    requires IsSubsequence(r, s) && Sorted(s)
    ensures Sorted(r)
    decreases |s|
  {
    if |r| > 0 {
      if r[0] == s[0] && IsSubsequence(r[1..], s[1..]) {
        assert Sorted(s[1..]);
        SubsequenceSorted(r[1..], s[1..]);
        forall k | 0 < k < |r| ensures Leq(r[0], r[k]) {
          assert r[k] == r[1..][k - 1];
          SubsequenceMembers(r[1..], s[1..], r[k]);
        }
      } else {
        assert Sorted(s[1..]);
        SubsequenceSorted(r, s[1..]);
      }
    }
  }
}
