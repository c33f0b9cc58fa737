/**
 * The two iterator adaptors the hierarchy queries are built from:
 * `filter_map` over a predicate (keep the matching items, in order) and
 * `find`/`find_map` (the first matching item, or nothing).
 */
module Seqs {
  import opened Wrappers

  /** `r` is `s` with some items left out: what it keeps is in `s`'s order. */
  predicate IsSubsequence<T(==)>(r: seq<T>, s: seq<T>)
    decreases |s|
  {
    if r == [] then true
    else if s == [] then false
    else (r[0] == s[0] && IsSubsequence(r[1..], s[1..])) || IsSubsequence(r, s[1..])
  }

  /** The items of `s` that satisfy `p`, in their original order. */
  function Filter<T(==, !new)>(s: seq<T>, p: T -> bool): (r: seq<T>)
    ensures |r| <= |s| && IsSubsequence(r, s)
    ensures forall i | 0 <= i < |r| :: p(r[i])
    ensures forall x :: x in r <==> x in s && p(x)
    ensures forall x :: multiset(r)[x] == if p(x) then multiset(s)[x] else 0
  {
    if s == [] then []
    else
      assert s == [s[0]] + s[1..];
      assert multiset(s) == multiset([s[0]]) + multiset(s[1..]);
      if p(s[0]) then [s[0]] + Filter(s[1..], p)
      else Filter(s[1..], p)
  }

  /** The first item of `s` that satisfies `p`; the search stops at it. */
  function First<T>(s: seq<T>, p: T -> bool): (r: Option<T>)
    ensures r.None? <==> forall i | 0 <= i < |s| :: !p(s[i])
    ensures r.Some? ==>
      exists i | 0 <= i < |s| :: s[i] == r.value && p(s[i]) && forall j | 0 <= j < i :: !p(s[j])
  {
    if s == [] then None
    else if p(s[0]) then Some(s[0])
    else
      var r := First(s[1..], p);
      assert r.Some? ==> exists i | 1 <= i < |s| :: s[i] == r.value && p(s[i]) && forall j | 1 <= j < i :: !p(s[j]);
      r
  }

  /** Filtering distributes over concatenation, so order is preserved. */
  lemma {:induction false} FilterAppend<T(!new)>(s: seq<T>, t: seq<T>, p: T -> bool)
    ensures Filter(s + t, p) == Filter(s, p) + Filter(t, p)
  {
    if s == [] {
      assert s + t == t;
    } else {
      assert (s + t)[1..] == s[1..] + t;
      FilterAppend(s[1..], t, p);
    }
  }

  /** `find` gives the head of what `filter` gives: the first match is the first kept item. */
  lemma {:induction false} FirstIsHeadOfFilter<T(!new)>(s: seq<T>, p: T -> bool)
    ensures First(s, p) == if Filter(s, p) == [] then None else Some(Filter(s, p)[0])
  {
    if s != [] && !p(s[0]) {
      FirstIsHeadOfFilter(s[1..], p);
    }
  }
}
