/**
 * JavaScript's `Array.prototype.sort` with a numeric comparator is a stable sort. It is modelled
 * as an insertion sort of POSITIONS by a key per position; stability then means that equal keys
 * keep their original relative order, which `Before` builds in as a tie-break on the position.
 */
module Sorting {
  import opened Common

  /** Position `a` sorts strictly before position `b`: a smaller key, or an equal key and an earlier position. */
  predicate Before(keys: seq<real>, a: nat, b: nat)
    requires a < |keys| && b < |keys|
  {
    keys[a] < keys[b] || (keys[a] == keys[b] && a < b)
  }

  /** `s` lists positions of `keys` in ascending stable order. */
  predicate SortedBy(keys: seq<real>, s: seq<nat>)
    requires InBounds(keys, s)
  {
    forall i, j :: 0 <= i < j < |s| ==> Before(keys, s[i], s[j])
  }

  /** Inserts `x` after the last element of `s` whose key is not larger than its own. */
  function Insert(keys: seq<real>, s: seq<nat>, x: nat): (r: seq<nat>)
    requires x < |keys| && InBounds(keys, s)
    ensures |r| == |s| + 1 && InBounds(keys, r)
    ensures forall y :: y in r <==> y in s || y == x
    decreases |s|
  {
    if s == [] || keys[s[|s| - 1]] <= keys[x] then
      s + [x]
    else
      var front := s[..|s| - 1];
      assert forall y :: y in s <==> y in front || y == s[|s| - 1];
      Insert(keys, front, x) + [s[|s| - 1]]
  }

  /** Inserting a position larger than all of a stably sorted `s` keeps it stably sorted. */
  lemma {:induction false} InsertSorted(keys: seq<real>, s: seq<nat>, x: nat)
    requires x < |keys| && InBounds(keys, s) && SortedBy(keys, s)
    requires forall y :: y in s ==> y < x
    ensures SortedBy(keys, Insert(keys, s, x))
    decreases |s|
  {
    assert forall k :: 0 <= k < |s| ==> s[k] < x by {
      forall k | 0 <= k < |s| ensures s[k] < x { assert s[k] in s; }
    }
    if s != [] && keys[s[|s| - 1]] > keys[x] {
      var last := s[|s| - 1];
      var front := s[..|s| - 1];
      assert forall y :: y in front ==> y in s;
      InsertSorted(keys, front, x);
      var rest := Insert(keys, front, x);
      assert Insert(keys, s, x) == rest + [last];
      assert forall k :: 0 <= k < |front| ==> Before(keys, front[k], last);
      forall k | 0 <= k < |rest| ensures Before(keys, rest[k], last) {
        if rest[k] != x {
          assert rest[k] in rest;
          var i :| 0 <= i < |front| && front[i] == rest[k];
        }
      }
    }
  }

  /** The stable order of the first `n` positions. */
  function SortPrefix(keys: seq<real>, n: nat): (r: seq<nat>)
    requires n <= |keys|
    ensures |r| == n && InBounds(keys, r)
    ensures forall y :: y in r <==> 0 <= y < n
  {
    if n == 0 then []
    else
      Insert(keys, SortPrefix(keys, n - 1), n - 1)
  }

  lemma {:induction false} SortPrefixSorted(keys: seq<real>, n: nat)
    requires n <= |keys|
    ensures SortedBy(keys, SortPrefix(keys, n))
  {
    if n > 0 {
      SortPrefixSorted(keys, n - 1);
      InsertSorted(keys, SortPrefix(keys, n - 1), n - 1);
    }
  }

  /** A stable order lists no position twice. */
  lemma SortedDistinct(keys: seq<real>, s: seq<nat>)
    requires InBounds(keys, s) && SortedBy(keys, s)
    ensures Distinct(s)
  {
    forall i, j | 0 <= i < j < |s| ensures s[i] != s[j] {
      assert Before(keys, s[i], s[j]);
    }
  }

  /** The positions of `keys` in ascending key order, equal keys in their original order. */
  function StableOrder(keys: seq<real>): (r: seq<nat>)
    ensures |r| == |keys| && InBounds(keys, r) && SortedBy(keys, r)
    ensures forall y :: y in r <==> 0 <= y < |keys|
    ensures Distinct(r)
  {
    SortPrefixSorted(keys, |keys|);
    SortedDistinct(keys, SortPrefix(keys, |keys|));
    SortPrefix(keys, |keys|)
  }

  /** Ascending keys along a stable order. */
  lemma SortedKeys(keys: seq<real>, s: seq<nat>, i: nat, j: nat)
    requires InBounds(keys, s) && SortedBy(keys, s)
    requires i <= j < |s|
    ensures keys[s[i]] <= keys[s[j]]
  {
  }

  lemma {:induction false} PickInsert<T>(xs: seq<T>, keys: seq<real>, s: seq<nat>, x: nat)
    requires |xs| == |keys|
    requires x < |keys| && InBounds(keys, s)
    ensures multiset(Pick(xs, Insert(keys, s, x))) == multiset(Pick(xs, s)) + multiset{xs[x]}
    decreases |s|
  {
    if s == [] || keys[s[|s| - 1]] <= keys[x] {
      PickSnoc(xs, s, x);
    } else {
      var last := s[|s| - 1];
      var front := s[..|s| - 1];
      assert Insert(keys, s, x) == Insert(keys, front, x) + [last];
      PickInsert(xs, keys, front, x);
      PickSnoc(xs, Insert(keys, front, x), last);
      assert s == front + [last];
      PickSnoc(xs, front, last);
    }
  }

  /** Reading one more position appends its element. */
  lemma PickSnoc<T>(xs: seq<T>, s: seq<nat>, y: nat)
    requires InBounds(xs, s) && y < |xs|
    ensures InBounds(xs, s + [y]) && Pick(xs, s + [y]) == Pick(xs, s) + [xs[y]]
  {
  }

  lemma {:induction false} PickSortPrefix<T>(xs: seq<T>, keys: seq<real>, n: nat)
    requires |xs| == |keys| && n <= |keys|
    ensures multiset(Pick(xs, SortPrefix(keys, n))) == multiset(xs[..n])
  {
    if n > 0 {
      PickSortPrefix(xs, keys, n - 1);
      PickSortStep(xs, keys, n);
      PrefixStep(xs, n);
    }
  }

  /** Sorting one more position in adds its element. */
  lemma PickSortStep<T>(xs: seq<T>, keys: seq<real>, n: nat)
    requires |xs| == |keys| && 0 < n <= |keys|
    ensures multiset(Pick(xs, SortPrefix(keys, n))) == multiset(Pick(xs, SortPrefix(keys, n - 1))) + multiset{xs[n - 1]}
  {
    PickInsert(xs, keys, SortPrefix(keys, n - 1), n - 1);
  }

  lemma PrefixStep<T>(xs: seq<T>, n: nat)
    requires 0 < n <= |xs|
    ensures multiset(xs[..n]) == multiset(xs[..n - 1]) + multiset{xs[n - 1]}
  {
    assert xs[..n] == xs[..n - 1] + [xs[n - 1]];
  }

  /** Reading any sequence along a stable order of its own length permutes it. */
  lemma PickStableOrder<T>(xs: seq<T>, keys: seq<real>)
    requires |xs| == |keys|
    ensures multiset(Pick(xs, StableOrder(keys))) == multiset(xs)
  {
    PickSortPrefix(xs, keys, |keys|);
    assert xs[..|keys|] == xs;
  }
}
