/** Small value types and sequence helpers shared by the suburb model. */
module Common {

  datatype Option<T> = None | Some(value: T)

  function Min(a: int, b: int): int { if a <= b then a else b }

  function Max(a: int, b: int): int { if a >= b then a else b }

  /** No element occurs twice. */
  predicate Distinct<T(==)>(s: seq<T>) {
    forall i, j :: 0 <= i < j < |s| ==> s[i] != s[j]
  }

  /** The set of elements of a sequence. */
  function Elems<T>(s: seq<T>): set<T> {
    set x | x in s
  }

  /** The first `k` elements of `s`, or all of `s` when it is shorter, as a JavaScript slice from 0 gives them. */
  function Take<T>(s: seq<T>, k: nat): (r: seq<T>)
    ensures |r| == Min(k, |s|) && r == s[..|r|]
  {
    if k <= |s| then s[..k] else s
  }

  /** Every position in `idx` is a valid index of `xs`. */
  predicate InBounds<T>(xs: seq<T>, idx: seq<nat>) {
    forall k :: 0 <= k < |idx| ==> idx[k] < |xs|
  }

  /** The elements of `xs` at the positions `idx`, in the order of `idx`. */
  function Pick<T>(xs: seq<T>, idx: seq<nat>): (r: seq<T>)
    requires InBounds(xs, idx)
    ensures |r| == |idx| && forall k :: 0 <= k < |idx| ==> r[k] == xs[idx[k]]
  {
    seq(|idx|, k requires 0 <= k < |idx| => xs[idx[k]])
  }

  /** The elements of `s` that occur in `m`, in the order of `s`. */
  function Keep(s: seq<nat>, m: seq<nat>): (r: seq<nat>)
    ensures forall x :: x in r <==> x in s && x in m
  {
    if s == [] then []
    else Keep(s[..|s| - 1], m) + (if s[|s| - 1] in m then [s[|s| - 1]] else [])
  }

  /** The elements of `s` that do not occur in `m`, in the order of `s`. */
  function Without(s: seq<nat>, m: seq<nat>): (r: seq<nat>)
    ensures forall x :: x in r <==> x in s && x !in m
  {
    if s == [] then []
    else Without(s[..|s| - 1], m) + (if s[|s| - 1] !in m then [s[|s| - 1]] else [])
  }

  lemma {:induction false} KeepDistinct(s: seq<nat>, m: seq<nat>)
    requires Distinct(s)
    ensures Distinct(Keep(s, m)) && Distinct(Without(s, m))
  {
    if s != [] {
      KeepDistinct(s[..|s| - 1], m);
    }
  }

  lemma {:induction false} KeepConcat(a: seq<nat>, b: seq<nat>, m: seq<nat>)
    ensures Keep(a + b, m) == Keep(a, m) + Keep(b, m)
    decreases |b|
  {
    if b == [] {
      assert a + b == a;
    } else {
      assert (a + b)[..|a + b| - 1] == a + b[..|b| - 1];
      KeepConcat(a, b[..|b| - 1], m);
    }
  }

  lemma {:induction false} WithoutConcat(a: seq<nat>, b: seq<nat>, m: seq<nat>)
    ensures Without(a + b, m) == Without(a, m) + Without(b, m)
    decreases |b|
  {
    if b == [] {
      assert a + b == a;
    } else {
      assert (a + b)[..|a + b| - 1] == a + b[..|b| - 1];
      WithoutConcat(a, b[..|b| - 1], m);
    }
  }

  /** Filtering a prefix gives a prefix of the filtered sequence. */
  lemma WithoutPrefix(s: seq<nat>, m: seq<nat>, k: nat)
    requires k <= |s|
    ensures |Without(s[..k], m)| <= |Without(s, m)|
    ensures Without(s[..k], m) == Without(s, m)[..|Without(s[..k], m)|]
  {
    assert s == s[..k] + s[k..];
    WithoutConcat(s[..k], s[k..], m);
  }

  /** Keeping from a prefix keeps no more than keeping from the whole. */
  lemma {:induction false} KeepPrefixLength(s: seq<nat>, m: seq<nat>, k: nat)
    requires k <= |s|
    ensures |Keep(s[..k], m)| <= |Keep(s, m)|
  {
    assert s == s[..k] + s[k..];
    KeepConcat(s[..k], s[k..], m);
  }

  lemma {:induction false} KeepWithoutLength(s: seq<nat>, m: seq<nat>)
    ensures |Keep(s, m)| + |Without(s, m)| == |s|
  {
    if s != [] {
      KeepWithoutLength(s[..|s| - 1], m);
    }
  }

  lemma {:induction false} DistinctCard<T>(s: seq<T>)
    requires Distinct(s)
    ensures |Elems(s)| == |s|
  {
    if s != [] {
      var p := s[..|s| - 1];
      assert Elems(s) == Elems(p) + {s[|s| - 1]};
      assert s[|s| - 1] !in Elems(p);
      DistinctCard(p);
    }
  }

  /** Removing from a distinct `s` the elements of a distinct `m` drawn from `s` leaves |s| - |m| elements. */
  lemma WithoutLength(s: seq<nat>, m: seq<nat>)
    requires Distinct(s) && Distinct(m)
    requires forall x :: x in m ==> x in s
    ensures |Without(s, m)| == |s| - |m|
  {
    KeepDistinct(s, m);
    KeepWithoutLength(s, m);
    assert Elems(Keep(s, m)) == Elems(m);
    DistinctCard(Keep(s, m));
    DistinctCard(m);
  }

  /** A distinct sequence drawn from a distinct `s` is no longer than `s`. */
  lemma SubsetLength<T>(m: seq<T>, s: seq<T>)
    requires Distinct(s) && Distinct(m)
    requires forall x :: x in m ==> x in s
    ensures |m| <= |s|
  {
    var rest := Elems(s) - Elems(m);
    assert Elems(s) == Elems(m) + rest;
    assert Elems(m) !! rest;
    DistinctCard(m);
    DistinctCard(s);
  }
}
