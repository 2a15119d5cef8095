/**
  String primitives the dashboard relies on: `trim`, `toLowerCase`,
  `split(",")`, `join(",")`, `includes` and the decimal rendering of a count
  in a template literal. Strings are `seq<char>`; whitespace and lower-casing
  are the ASCII ones.
 */
module Text {

  // ---------------------------------------------------------------- trim

  /** ASCII whitespace: tab, line feed, vertical tab, form feed, carriage return, space. */
  predicate IsSpace(c: char) {
    c == ' ' || (9 <= c as int <= 13)
  }

  predicate AllSpace(s: string) {
    forall i :: 0 <= i < |s| ==> IsSpace(s[i])
  }

  /** A string with no whitespace at either end. */
  predicate IsTrimmed(s: string) {
    |s| == 0 || (!IsSpace(s[0]) && !IsSpace(s[|s| - 1]))
  }

  /** The index of the first non-whitespace character at or after `i` (`|s|` if there is none). */
  function SkipSpace(s: string, i: nat): (k: nat)
    requires i <= |s|
    ensures i <= k <= |s|
    ensures forall m :: i <= m < k ==> IsSpace(s[m])
    ensures k < |s| ==> !IsSpace(s[k])
    decreases |s| - i
  {
    if i < |s| && IsSpace(s[i]) then SkipSpace(s, i + 1) else i
  }

  /** Moving down from `j`, the index just past the last non-whitespace character above `lo`. */
  function SkipSpaceBack(s: string, lo: nat, j: nat): (k: nat)
    requires lo <= j <= |s|
    ensures lo <= k <= j
    ensures forall m :: k <= m < j ==> IsSpace(s[m])
    ensures k > lo ==> !IsSpace(s[k - 1])
    decreases j
  {
    if j > lo && IsSpace(s[j - 1]) then SkipSpaceBack(s, lo, j - 1) else j
  }

  /** Where the trimmed part of `s` starts. */
  function TrimLo(s: string): nat {
    SkipSpace(s, 0)
  }

  /** Where the trimmed part of `s` ends. */
  function TrimHi(s: string): nat {
    SkipSpaceBack(s, TrimLo(s), |s|)
  }

  /** `r` is `s[i..j]`, and every character of `s` outside `i..j` is whitespace. */
  predicate StripsTo(s: string, r: string, i: int, j: int) {
    0 <= i <= j <= |s| && r == s[i..j] &&
    (forall k :: 0 <= k < i ==> IsSpace(s[k])) &&
    (forall k :: j <= k < |s| ==> IsSpace(s[k]))
  }

  /**
    `String.prototype.trim`: `s` with its leading and trailing whitespace
    removed. The result has no whitespace at either end and is no longer
    than `s`; `TrimStrips` and `TrimUnique` say which part of `s` it is.
   */
  function Trim(s: string): (r: string)
    ensures IsTrimmed(r)
    ensures |r| <= |s|
  {
    s[TrimLo(s)..TrimHi(s)]
  }

  /** The trim is the part of `s` between a whitespace-only prefix and a whitespace-only suffix. */
  lemma TrimStrips(s: string)
    ensures StripsTo(s, Trim(s), TrimLo(s), TrimHi(s))
  {
  }

  /**
    `trim` is characterised by its two properties: any string without
    whitespace at either end that `s` strips to is the trim of `s`.
   */
  lemma TrimUnique(s: string, r: string, i: int, j: int)
    requires StripsTo(s, r, i, j) && IsTrimmed(r)
    ensures Trim(s) == r
  {
    var lo, hi := TrimLo(s), TrimHi(s);
    if r == [] {
      assert AllSpace(s) by {
        forall k | 0 <= k < |s| ensures IsSpace(s[k]) {
          assert k < i || j <= k;
        }
      }
      assert lo == |s|;
    } else {
      assert s[i] == r[0] && s[j - 1] == r[|r| - 1];
      assert lo == i;
      assert hi == j;
    }
  }

  /** Trimming a string that is already trimmed changes nothing (so `trim` is idempotent). */
  lemma TrimOfTrimmed(s: string)
    requires IsTrimmed(s)
    ensures Trim(s) == s
  {
    assert s[0..|s|] == s;
    TrimUnique(s, s, 0, |s|);
  }

  lemma TrimIdempotent(s: string)
    ensures Trim(Trim(s)) == Trim(s)
  {
    TrimOfTrimmed(Trim(s));
  }

  /** A leading whitespace character does not survive `trim`. */
  lemma TrimDropsLeadingSpace(c: char, s: string)
    requires IsSpace(c)
    ensures Trim([c] + s) == Trim(s)
  {
    var u := [c] + s;
    var lo, hi := TrimLo(s), TrimHi(s);
    TrimStrips(s);
    assert u[lo + 1..hi + 1] == s[lo..hi];
    assert forall k :: 1 <= k < |u| ==> u[k] == s[k - 1];
    TrimUnique(u, Trim(s), lo + 1, hi + 1);
  }

  /** `trim` yields the empty string exactly for whitespace-only strings. */
  lemma TrimEmptyIff(s: string)
    ensures Trim(s) == "" <==> AllSpace(s)
  {
    TrimStrips(s);
    if Trim(s) == "" {
      forall k | 0 <= k < |s| ensures IsSpace(s[k]) {
        assert k < TrimLo(s) || TrimHi(s) <= k;
      }
    }
    if AllSpace(s) {
      TrimUnique(s, "", 0, 0);
    }
  }

  // ---------------------------------------------------------------- lower case

  function LowerChar(c: char): char {
    if 'A' <= c <= 'Z' then (c as int + 32) as char else c
  }

  /** `String.prototype.toLowerCase` restricted to ASCII: same length, each letter lowered. */
  function ToLower(s: string): (r: string)
    ensures |r| == |s|
    ensures forall k :: 0 <= k < |s| ==> r[k] == LowerChar(s[k])
  {
    if |s| == 0 then [] else [LowerChar(s[0])] + ToLower(s[1..])
  }

  // ---------------------------------------------------------------- includes

  predicate StartsWith(s: string, p: string) {
    |p| <= |s| && s[..|p|] == p
  }

  /** `t` occurs in `s` starting at position `i`. */
  predicate OccursAt(s: string, t: string, i: int) {
    0 <= i <= |s| - |t| && s[i..i + |t|] == t
  }

  /** `s.includes(t)`, computed by trying every start position. */
  predicate Contains(s: string, t: string)
    ensures Contains(s, t) ==> |t| <= |s|
    ensures |t| == 0 ==> Contains(s, t)
    decreases |s|
  {
    StartsWith(s, t) || (|s| > 0 && Contains(s[1..], t))
  }

  /** `Contains` agrees with the definition of a substring occurrence. */
  lemma {:induction false} ContainsIff(s: string, t: string)
    ensures Contains(s, t) <==> exists i :: OccursAt(s, t, i)
    decreases |s|
  {
    if StartsWith(s, t) {
      assert OccursAt(s, t, 0);
    }
    if |s| > 0 {
      ContainsIff(s[1..], t);
      if Contains(s[1..], t) {
        var i :| OccursAt(s[1..], t, i);
        assert s[i + 1..i + 1 + |t|] == s[1..][i..i + |t|];
        assert OccursAt(s, t, i + 1);
      }
      if i :| OccursAt(s, t, i) {
        if i > 0 {
          assert s[1..][i - 1..i - 1 + |t|] == s[i..i + |t|];
          assert OccursAt(s[1..], t, i - 1);
        }
      }
    } else if i :| OccursAt(s, t, i) {
      assert i == 0 && |t| == 0;
      assert StartsWith(s, t);
    }
  }

  // ---------------------------------------------------------------- split and join

  const Comma: char := ','

  predicate CommaFree(s: string) {
    Comma !in s
  }

  /**
    `s.split(",")`: the comma-separated pieces of `s`, in order. As in
    JavaScript there is always at least one piece ("" splits into [""]).
   */
  function SplitCommas(s: string): (r: seq<string>)
    ensures |r| >= 1
    ensures forall k :: 0 <= k < |r| ==> CommaFree(r[k])
  {
    if |s| == 0 then [""]
    else if s[0] == Comma then [""] + SplitCommas(s[1..])
    else
      var rest := SplitCommas(s[1..]);
      [[s[0]] + rest[0]] + rest[1..]
  }

  /** `xs.join(",")`. */
  function JoinCommas(xs: seq<string>): (r: string)
    ensures |xs| > 0 ==> |xs[0]| <= |r| && r[..|xs[0]|] == xs[0]
  {
    if |xs| == 0 then ""
    else if |xs| == 1 then xs[0]
    else xs[0] + [Comma] + JoinCommas(xs[1..])
  }

  /** A comma-free string is a single piece. */
  lemma {:induction false} SplitCommaFree(s: string)
    requires CommaFree(s)
    ensures SplitCommas(s) == [s]
  {
    if |s| > 0 {
      assert CommaFree(s[1..]) by { assert forall k :: 0 <= k < |s| - 1 ==> s[1..][k] == s[k + 1]; }
      SplitCommaFree(s[1..]);
      assert [s[0]] + s[1..] == s;
    }
  }

  /** Splitting at a comma splits the two sides independently. */
  lemma {:induction false} SplitAppend(a: string, b: string)
    ensures SplitCommas(a + [Comma] + b) == SplitCommas(a) + SplitCommas(b)
  {
    var s := a + [Comma] + b;
    if |a| == 0 {
      assert s[1..] == b;
    } else {
      assert s[1..] == a[1..] + [Comma] + b;
      SplitAppend(a[1..], b);
    }
  }

  /** Joining the pieces of `s` gives back `s`. */
  lemma {:induction false} JoinSplit(s: string)
    ensures JoinCommas(SplitCommas(s)) == s
  {
    if |s| > 0 {
      JoinSplit(s[1..]);
      var rest := SplitCommas(s[1..]);
      if s[0] == Comma {
        assert SplitCommas(s)[1..] == rest;
        assert s == [Comma] + s[1..];
      } else {
        var r := SplitCommas(s);
        assert r[0] == [s[0]] + rest[0];
        if |rest| == 1 {
          assert s == [s[0]] + s[1..];
        } else {
          assert r[1..] == rest[1..];
          assert JoinCommas(rest) == rest[0] + [Comma] + JoinCommas(rest[1..]);
          assert s == [s[0]] + s[1..];
        }
      }
    }
  }

  /** Splitting a join of comma-free pieces gives back the pieces (for at least one piece). */
  lemma {:induction false} SplitJoin(xs: seq<string>)
    requires |xs| >= 1
    requires forall k :: 0 <= k < |xs| ==> CommaFree(xs[k])
    ensures SplitCommas(JoinCommas(xs)) == xs
  {
    if |xs| == 1 {
      SplitCommaFree(xs[0]);
    } else {
      SplitAppend(xs[0], JoinCommas(xs[1..]));
      SplitCommaFree(xs[0]);
      SplitJoin(xs[1..]);
      assert [xs[0]] + xs[1..] == xs;
    }
  }

  // ---------------------------------------------------------------- decimal digits

  function DigitChar(d: nat): char
    requires d < 10
  {
    "0123456789"[d]
  }

  predicate IsDigit(c: char) {
    '0' <= c <= '9'
  }

  /** The decimal rendering of a count, as `${n}` produces it: digits only, no leading zero. */
  function NatToString(n: nat): (r: string)
    ensures |r| >= 1
    ensures forall k :: 0 <= k < |r| ==> IsDigit(r[k])
    ensures |r| > 1 ==> r[0] != '0'
  {
    if n < 10 then [DigitChar(n)] else NatToString(n / 10) + [DigitChar(n % 10)]
  }

  /** The value of a string of decimal digits. */
  function DigitsValue(s: string): nat
    requires forall k :: 0 <= k < |s| ==> IsDigit(s[k])
  {
    if |s| == 0 then 0
    else
      var d := s[|s| - 1];
      assert IsDigit(d);
      10 * DigitsValue(s[..|s| - 1]) + (d as int - '0' as int)
  }

  /** Reading back the decimal rendering of `n` gives `n`. */
  lemma {:induction false} NatToStringValue(n: nat)
    ensures DigitsValue(NatToString(n)) == n
  {
    if n >= 10 {
      NatToStringValue(n / 10);
      var r := NatToString(n);
      assert r[..|r| - 1] == NatToString(n / 10);
    }
  }
}
