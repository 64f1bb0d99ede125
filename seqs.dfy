/** Sequence operations shared by the store and the pages: the JavaScript
    `filter` the pages apply to fetched lists, the newest-first order of the
    listings, and the subsequence relation that says a filter keeps order. */
module Seqs {

  /** `s.filter(p)`: the elements of `s` that satisfy `p`, in their order. */
  function Filter<T>(s: seq<T>, p: T -> bool): (r: seq<T>)
    ensures |r| <= |s|
    ensures forall i :: 0 <= i < |r| ==> r[i] in s && p(r[i])
    ensures forall i :: 0 <= i < |s| && p(s[i]) ==> s[i] in r
  {
    if s == [] then []
    else
      var rest := Filter(s[1..], p);
      assert forall i :: 1 <= i < |s| ==> s[i] == s[1..][i - 1];
      if p(s[0]) then [s[0]] + rest else rest
  }

  /** `a` is `b` with some elements deleted and the rest in their order. */
  ghost predicate IsSubsequence<T>(a: seq<T>, b: seq<T>)
    decreases |b|
  {
    if b == [] then a == []
    else (a != [] && a[0] == b[0] && IsSubsequence(a[1..], b[1..])) || IsSubsequence(a, b[1..])
  }

  /** A filter deletes elements and keeps the order of the rest. */
  lemma {:induction false} FilterIsSubsequence<T>(s: seq<T>, p: T -> bool)
    ensures IsSubsequence(Filter(s, p), s)
  {
    if s != [] {
      FilterIsSubsequence(s[1..], p);
      var rest := Filter(s[1..], p);
      if p(s[0]) {
        assert ([s[0]] + rest)[1..] == rest;
      }
    }
  }

  /** A subsequence is never longer than the sequence it is taken from. */
  lemma {:induction false} SubsequenceLength<T>(a: seq<T>, b: seq<T>)
    requires IsSubsequence(a, b)
    ensures |a| <= |b|
    decreases |b|
  {
    if b != [] {
      if a != [] && a[0] == b[0] && IsSubsequence(a[1..], b[1..]) {
        SubsequenceLength(a[1..], b[1..]);
      } else {
        SubsequenceLength(a, b[1..]);
      }
    }
  }

  /** Two filters by predicates no element satisfies together pick
      disjoint parts of `s`, so their lengths add up to at most `|s|`. */
  lemma {:induction false} DisjointFiltersLength<T>(s: seq<T>, p: T -> bool, q: T -> bool)
    requires forall i :: 0 <= i < |s| ==> !(p(s[i]) && q(s[i]))
    ensures |Filter(s, p)| + |Filter(s, q)| <= |s|
  {
    if s != [] {
      assert forall i :: 1 <= i < |s| ==> s[i] == s[1..][i - 1];
      DisjointFiltersLength(s[1..], p, q);
    }
  }

  /** A table kept in creation order, listed newest record first. */
  function NewestFirst<T>(s: seq<T>): (r: seq<T>)
    ensures |r| == |s|
  {
    if s == [] then [] else [s[|s| - 1]] + NewestFirst(s[..|s| - 1])
  }

  /** Position `k` of the listing holds the record created `k`-th from last. */
  lemma {:induction false} NewestFirstAt<T>(s: seq<T>, k: int)
    requires 0 <= k < |s|
    ensures NewestFirst(s)[k] == s[|s| - 1 - k]
  {
    if k > 0 {
      NewestFirstAt(s[..|s| - 1], k - 1);
    }
  }

  /** The listing holds every record of the table exactly as often as the table does. */
  lemma {:induction false} NewestFirstPermutes<T>(s: seq<T>)
    ensures multiset(NewestFirst(s)) == multiset(s)
  {
    if s != [] {
      NewestFirstPermutes(s[..|s| - 1]);
      assert s == s[..|s| - 1] + [s[|s| - 1]];
    }
  }

  /** `key` grows strictly along `s`. */
  ghost predicate StrictlyAscending<T>(s: seq<T>, key: T -> int)
  {
    forall i, j :: 0 <= i < j < |s| ==> key(s[i]) < key(s[j])
  }

  /** `key` falls strictly along `s`. */
  ghost predicate StrictlyDescending<T>(s: seq<T>, key: T -> int)
  {
    forall i, j :: 0 <= i < j < |s| ==> key(s[i]) > key(s[j])
  }

  /** Listing a table whose keys grow with creation yields falling keys. */
  lemma NewestFirstDescending<T>(s: seq<T>, key: T -> int)
    requires StrictlyAscending(s, key)
    ensures StrictlyDescending(NewestFirst(s), key)
  {
    forall k | 0 <= k < |s|
      ensures NewestFirst(s)[k] == s[|s| - 1 - k]
    {
      NewestFirstAt(s, k);
    }
  }

  /** Filtering a list with one more element at the end. */
  lemma {:induction false} FilterSnoc<T>(s: seq<T>, x: T, p: T -> bool)
    ensures Filter(s + [x], p) == Filter(s, p) + (if p(x) then [x] else [])
  {
    if s == [] {
      assert [] + [x] == [x];
      assert [x][1..] == [];
    } else {
      assert (s + [x])[1..] == s[1..] + [x];
      FilterSnoc(s[1..], x, p);
    }
  }

  /** Listing newest first does not change how many entries a filter keeps. */
  lemma {:induction false} FilterNewestFirstLength<T>(s: seq<T>, p: T -> bool)
    ensures |Filter(NewestFirst(s), p)| == |Filter(s, p)|
  {
    if s != [] {
      var init, last := s[..|s| - 1], s[|s| - 1];
      FilterNewestFirstLength(init, p);
      assert ([last] + NewestFirst(init))[1..] == NewestFirst(init);
      assert s == init + [last];
      FilterSnoc(init, last, p);
    }
  }
}
