/**
  Sequence operations behind the array pipelines of the dashboard:
  `Array.from(new Set(xs))` (de-duplication keeping first occurrences),
  `xs.filter((v) => v !== x)`, and the facts about subsequences and
  duplicate-freedom that the other modules use.
 */
module Lists {

  predicate NoDup<T(==)>(xs: seq<T>) {
    forall i, j :: 0 <= i < j < |xs| ==> xs[i] != xs[j]
  }

  /** The position of the first occurrence of `x` in `xs` (`xs.indexOf(x)`). */
  function FirstIndex<T(==)>(xs: seq<T>, x: T): (k: nat)
    requires x in xs
    ensures k < |xs| && xs[k] == x && x !in xs[..k]
  {
    if xs[0] == x then 0
    else
      var k := FirstIndex(xs[1..], x);
      assert xs[..k + 1] == [xs[0]] + xs[1..][..k];
      k + 1
  }

  /** The first occurrence is the only position before which `x` does not occur. */
  lemma FirstIndexUnique<T>(xs: seq<T>, x: T, k: nat)
    requires k < |xs| && xs[k] == x && x !in xs[..k]
    ensures FirstIndex(xs, x) == k
  {
    var f := FirstIndex(xs, x);
    assert forall i :: 0 <= i < k ==> xs[i] == xs[..k][i];
    assert forall i :: 0 <= i < f ==> xs[i] == xs[..f][i];
  }

  /** An element of a prefix has the same first occurrence in the prefix and in the whole. */
  lemma FirstIndexPrefix<T>(xs: seq<T>, n: nat, x: T)
    requires n <= |xs| && x in xs[..n]
    ensures FirstIndex(xs, x) == FirstIndex(xs[..n], x)
  {
    var k := FirstIndex(xs[..n], x);
    assert xs[..n][..k] == xs[..k];
    FirstIndexUnique(xs, x, k);
  }

  /**
    `Array.from(new Set(xs))`: a `Set` remembers insertion order, so the
    result lists each distinct element once, at the place of its first
    occurrence. Defined by adding the elements of `xs` one at a time.
   */
  function Dedup<T(==,!new)>(xs: seq<T>): (r: seq<T>)
    ensures NoDup(r)
    ensures forall x :: x in r <==> x in xs
    ensures |r| <= |xs|
  {
    if |xs| == 0 then []
    else
      var d := Dedup(xs[..|xs| - 1]);
      var x := xs[|xs| - 1];
      assert xs == xs[..|xs| - 1] + [x];
      if x in d then d else d + [x]
  }

  /** The elements of `Dedup(xs)` appear in the order of their first occurrence in `xs`. */
  lemma {:induction false} DedupFirstOccurrenceOrder<T(!new)>(xs: seq<T>)
    ensures forall i, j :: 0 <= i < j < |Dedup(xs)| ==>
      FirstIndex(xs, Dedup(xs)[i]) < FirstIndex(xs, Dedup(xs)[j])
  {
    if |xs| > 0 {
      var n := |xs| - 1;
      var init := xs[..n];
      var d := Dedup(init);
      var x := xs[n];
      DedupFirstOccurrenceOrder(init);
      forall y | y in d ensures FirstIndex(xs, y) == FirstIndex(init, y) < n {
        FirstIndexPrefix(xs, n, y);
      }
      if x !in d {
        assert xs[..n] == init;
        FirstIndexUnique(xs, x, n);
        var r := d + [x];
        assert forall y :: y in r ==> y in xs by {
          assert forall i :: 0 <= i < n ==> init[i] == xs[i];
        }
        forall i, j | 0 <= i < j < |r| ensures FirstIndex(xs, r[i]) < FirstIndex(xs, r[j]) {
          assert r[i] in d;
          if j < |d| {
            assert r[j] == d[j];
          }
        }
      }
    }
  }

  /** De-duplicating a duplicate-free sequence changes nothing. */
  lemma {:induction false} DedupOfNoDup<T(!new)>(xs: seq<T>)
    requires NoDup(xs)
    ensures Dedup(xs) == xs
  {
    if |xs| > 0 {
      var n := |xs| - 1;
      assert NoDup(xs[..n]);
      DedupOfNoDup(xs[..n]);
      assert xs[n] !in xs[..n];
      assert xs[..n] + [xs[n]] == xs;
    }
  }

  /** A duplicate-free sequence holds every element at most once. */
  lemma {:induction false} NoDupCount<T>(xs: seq<T>, x: T)
    requires NoDup(xs)
    ensures multiset(xs)[x] <= 1
  {
    if |xs| > 0 {
      assert xs == [xs[0]] + xs[1..];
      assert NoDup(xs[1..]);
      NoDupCount(xs[1..], x);
      if x == xs[0] {
        assert x !in xs[1..];
      }
    }
  }

  /** Duplicate-freedom depends only on the multiset of elements. */
  lemma NoDupPermutation<T>(a: seq<T>, b: seq<T>)
    requires multiset(a) == multiset(b) && NoDup(a)
    ensures NoDup(b)
  {
    forall i, j | 0 <= i < j < |b| ensures b[i] != b[j] {
      if b[i] == b[j] {
        assert b == b[..j] + b[j..];
        assert b[i] in b[..j] && b[j] in b[j..];
        assert multiset(b)[b[i]] == multiset(b[..j])[b[i]] + multiset(b[j..])[b[i]];
        NoDupCount(a, b[i]);
      }
    }
  }

  /** `r` is obtained from `xs` by deleting some elements, keeping the order of the rest. */
  predicate IsSubsequence<T(==)>(r: seq<T>, xs: seq<T>)
    decreases |xs|
  {
    |r| == 0 ||
    (|xs| > 0 && ((r[0] == xs[0] && IsSubsequence(r[1..], xs[1..])) || IsSubsequence(r, xs[1..])))
  }

  lemma {:induction false} SubsequenceMembers<T>(r: seq<T>, xs: seq<T>, y: T)
    requires IsSubsequence(r, xs) && y in r
    ensures y in xs
    decreases |xs|
  {
    if r[0] == xs[0] && IsSubsequence(r[1..], xs[1..]) {
      if y != r[0] {
        SubsequenceMembers(r[1..], xs[1..], y);
      }
    } else {
      SubsequenceMembers(r, xs[1..], y);
    }
  }

  /**
    `xs.filter((v) => v !== x)`: every occurrence of `x` is gone, every other
    element keeps its number of occurrences and the survivors keep their order.
   */
  function RemoveAll<T(==,!new)>(xs: seq<T>, x: T): (r: seq<T>)
    ensures x !in r
    ensures forall y :: y != x ==> multiset(r)[y] == multiset(xs)[y]
    ensures IsSubsequence(r, xs)
  {
    if |xs| == 0 then []
    else
      var rest := RemoveAll(xs[1..], x);
      assert xs == [xs[0]] + xs[1..];
      if xs[0] == x then rest else [xs[0]] + rest
  }
}
