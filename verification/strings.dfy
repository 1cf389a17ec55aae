/** String predicates and searches used by the rules, written out by hand
    in place of Python's `in`, `startswith`, `endswith`, `split` and `join`. */
module Strings {
  import opened Wrappers

  /** `pat` occurs in `s` starting at index `i`. */
  predicate OccursAt(s: string, pat: string, i: nat)
  {
    i + |pat| <= |s| && s[i..i + |pat|] == pat
  }

  /** Python's `pat in s`. */
  predicate Contains(s: string, pat: string)
  {
    exists i: nat | i <= |s| :: OccursAt(s, pat, i)
  }

  /** Python's `s.startswith(pat)`. */
  predicate StartsWith(s: string, pat: string)
  {
    pat <= s
  }

  /** Python's `s.endswith(pat)`. */
  predicate EndsWith(s: string, pat: string)
  {
    |pat| <= |s| && s[|s| - |pat|..] == pat
  }

  /** `s[1:]`. */
  function DropFirst(s: string): (r: string)
    ensures |s| > 0 ==> r == s[1..]
    ensures |s| == 0 ==> r == s
  {
    if |s| == 0 then s else s[1..]
  }

  /** Index of the first occurrence of `pat` in `s` at or after `from`. */
  function FindFrom(s: string, pat: string, from: nat): (r: Option<nat>)
    requires |pat| > 0
    ensures r.Some? ==> from <= r.value && OccursAt(s, pat, r.value)
    ensures r.Some? ==> forall j: nat :: from <= j < r.value ==> !OccursAt(s, pat, j)
    ensures r.None? ==> forall j: nat :: from <= j ==> !OccursAt(s, pat, j)
    decreases |s| - from
  {
    if from + |pat| > |s| then None
    else if OccursAt(s, pat, from) then Some(from)
    else FindFrom(s, pat, from + 1)
  }

  /** Largest index `i` with `pat` occurring at `i` and ending by `n`. */
  function LastBefore(s: string, pat: string, n: nat): (r: Option<nat>)
    requires n <= |s|
    ensures r.Some? ==> r.value + |pat| <= n && OccursAt(s, pat, r.value)
    ensures r.Some? ==> forall j: nat :: r.value < j && j + |pat| <= n ==> !OccursAt(s, pat, j)
    ensures r.None? ==> forall j: nat :: j + |pat| <= n ==> !OccursAt(s, pat, j)
  {
    if n < |pat| then None
    else if OccursAt(s, pat, n - |pat|) then Some(n - |pat|)
    else LastBefore(s, pat, n - 1)
  }

  lemma ContainsIffFound(s: string, pat: string)
    requires |pat| > 0
    ensures Contains(s, pat) <==> FindFrom(s, pat, 0).Some?
  {
    if FindFrom(s, pat, 0).Some? {
      assert OccursAt(s, pat, FindFrom(s, pat, 0).value);
    }
  }

  /** Index of the first `'\n'` at or after `from`, or `|s|` when there is none:
      where a regular-expression `.*` started at `from` stops. */
  function LineEnd(s: string, from: nat): (r: nat)
    requires from <= |s|
    ensures from <= r <= |s|
    ensures forall j :: from <= j < r ==> s[j] != '\n'
    ensures r < |s| ==> s[r] == '\n'
    decreases |s| - from
  {
    if from == |s| || s[from] == '\n' then from else LineEnd(s, from + 1)
  }

  /** The string is made of `/` only (and is not empty). */
  predicate AllSlashes(s: string)
  {
    |s| > 0 && forall i :: 0 <= i < |s| ==> s[i] == '/'
  }

  /** Python's `s.split(c)` for a one-character separator: every field,
      empty ones included. */
  function SplitOn(s: string, c: char): (r: seq<string>)
    ensures |r| >= 1
    ensures forall i :: 0 <= i < |r| ==> c !in r[i]
    ensures c !in s ==> r == [s]
  {
    if |s| == 0 then [""]
    else
      var rest := SplitOn(s[1..], c);
      if s[0] == c then [""] + rest
      else
        assert c !in s ==> c !in s[1..];
        assert [s[0]] + s[1..] == s;
        [[s[0]] + rest[0]] + rest[1..]
  }

  /** Python's `c.join(parts)` for a one-character separator. */
  function JoinWith(parts: seq<string>, c: char): string
  {
    if |parts| == 0 then ""
    else if |parts| == 1 then parts[0]
    else parts[0] + [c] + JoinWith(parts[1..], c)
  }

  /** Splitting and re-joining on the same character gives the string back. */
  lemma {:induction false} JoinSplitRoundTrip(s: string, c: char)
    ensures JoinWith(SplitOn(s, c), c) == s
  {
    if |s| == 0 {
    } else {
      var rest := SplitOn(s[1..], c);
      JoinSplitRoundTrip(s[1..], c);
      if s[0] == c {
        assert SplitOn(s, c) == [""] + rest;
        assert ([""] + rest)[1..] == rest;
      } else {
        var r := [[s[0]] + rest[0]] + rest[1..];
        assert SplitOn(s, c) == r;
        if |rest| == 1 {
          assert r == [[s[0]] + rest[0]];
        } else {
          assert r[1..] == rest[1..];
          assert JoinWith(rest, c) == rest[0] + [c] + JoinWith(rest[1..], c);
        }
      }
    }
  }

  /** Splitting a join of separator-free fields gives the fields back. */
  lemma {:induction false} SplitJoinRoundTrip(parts: seq<string>, c: char)
    requires |parts| >= 1
    requires forall i :: 0 <= i < |parts| ==> c !in parts[i]
    ensures SplitOn(JoinWith(parts, c), c) == parts
  {
    if |parts| == 1 {
    } else {
      SplitJoinRoundTrip(parts[1..], c);
      SplitPrefix(parts[0], c, JoinWith(parts[1..], c));
      assert [parts[0]] + parts[1..] == parts;
    }
  }

  /** Splitting `a + [c] + b` where `a` has no separator. */
  lemma {:induction false} SplitPrefix(a: string, c: char, b: string)
    requires c !in a
    ensures SplitOn(a + [c] + b, c) == [a] + SplitOn(b, c)
  {
    if |a| == 0 {
      assert a + [c] + b == [c] + b;
      assert ([c] + b)[1..] == b;
    } else {
      assert (a + [c] + b)[1..] == a[1..] + [c] + b;
      SplitPrefix(a[1..], c, b);
      assert [a[0]] + a[1..] == a;
    }
  }
}
