/**
 * The population statistics the footer selection scores with (src/utils/footer-locations.ts:80-144):
 * the population percentile, the regional-centre test and the set of population outliers.
 * JavaScript's truthiness treats an absent and a zero population alike.
 */
module Significance {
  import opened Common
  import opened Sorting
  import opened Geo
  import opened StaticSuburbs

  /** The population, with an absent one read as zero. */
  function PopOrZero(s: Suburb): int {
    if s.population.Some? then s.population.value else 0
  }

  /** The population is present and not zero. */
  predicate Populated(s: Suburb) {
    s.population.Some? && s.population.value != 0
  }

  /** The positive populations of the list, in input order. */
  function Positives(all: seq<Suburb>): (ps: seq<int>)
    ensures |ps| <= |all|
    ensures forall p :: p in ps ==> p > 0
    ensures forall s :: s in all && PopOrZero(s) > 0 ==> PopOrZero(s) in ps
  {
    if all == [] then []
    else
      var last := all[|all| - 1];
      var front := Positives(all[..|all| - 1]);
      assert forall s :: s in all ==> s in all[..|all| - 1] || s == last;
      front + (if PopOrZero(last) > 0 then [PopOrZero(last)] else [])
  }

  /** The positive populations keep the input order: a concatenation gives the populations of each part in turn. */
  lemma {:induction false} PositivesConcat(a: seq<Suburb>, b: seq<Suburb>)
    ensures Positives(a + b) == Positives(a) + Positives(b)
    decreases |b|
  {
    if b == [] {
      assert a + b == a;
    } else {
      var front := b[..|b| - 1];
      var x := b[|b| - 1];
      var tail := if PopOrZero(x) > 0 then [PopOrZero(x)] else [];
      assert (a + b)[..|a + b| - 1] == a + front;
      assert (a + b)[|a + b| - 1] == x;
      PositivesStep(a + b);
      PositivesStep(b);
      PositivesConcat(a, front);
    }
  }

  /** One step of the filter: the populations of all but the last suburb, then the last one's if positive. */
  lemma PositivesStep(xs: seq<Suburb>)
    requires xs != []
    ensures Positives(xs) == Positives(xs[..|xs| - 1]) +
      (if PopOrZero(xs[|xs| - 1]) > 0 then [PopOrZero(xs[|xs| - 1])] else [])
  {
  }

  /** A single suburb contributes its population exactly when it is positive. */
  lemma PositivesSingle(x: Suburb)
    ensures Positives([x]) == if PopOrZero(x) > 0 then [PopOrZero(x)] else []
  {
    assert [x][..0] == [];
  }

  predicate Ascending(ps: seq<int>) {
    forall i, j :: 0 <= i < j < |ps| ==> ps[i] <= ps[j]
  }

  function IntKeys(ps: seq<int>): (keys: seq<real>)
    ensures |keys| == |ps| && forall k :: 0 <= k < |ps| ==> keys[k] == ps[k] as real
  {
    seq(|ps|, k requires 0 <= k < |ps| => ps[k] as real)
  }

  /** The populations in ascending numeric order. */
  function SortAscending(ps: seq<int>): (r: seq<int>)
    ensures multiset(r) == multiset(ps) && Ascending(r)
  {
    var keys := IntKeys(ps);
    var order := StableOrder(keys);
    PickStableOrder(ps, keys);
    assert forall i, j :: 0 <= i < j < |order| ==> keys[order[i]] <= keys[order[j]];
    Pick(ps, order)
  }

  /** The first position holding at least `v`, or -1 when there is none. */
  function FirstAtLeast(ps: seq<int>, v: int): (i: int)
    ensures -1 <= i < |ps|
    ensures i == -1 <==> forall k :: 0 <= k < |ps| ==> ps[k] < v
    ensures 0 <= i ==> ps[i] >= v && forall k :: 0 <= k < i ==> ps[k] < v
  {
    if ps == [] then -1
    else if ps[0] >= v then 0
    else
      var j := FirstAtLeast(ps[1..], v);
      assert forall k :: 1 <= k < |ps| ==> ps[k] == ps[1..][k - 1];
      if j == -1 then -1 else j + 1
  }

  /**
   * `calculatePopulationPercentile`: the position of the first positive population at least the
   * suburb's, as a fraction of the number of positive populations.
   */
  function PopulationPercentile(s: Suburb, all: seq<Suburb>): (r: real)
    ensures !Populated(s) || |Positives(all)| == 0 ==> r == 0.0
    ensures -1.0 <= r < 1.0
    ensures s in all ==> 0.0 <= r
  {
    var ps := SortAscending(Positives(all));
    SortedPositives(all);
    if |ps| == 0 || !Populated(s) then 0.0
    else
      var i := FirstAtLeast(ps, s.population.value);
      FoundInList(s, all);
      Ratio(i, |ps|)
  }

  /** The sorted positive populations are as many as the positive populations. */
  lemma SortedPositives(all: seq<Suburb>)
    ensures |SortAscending(Positives(all))| == |Positives(all)|
  {
    var ps := SortAscending(Positives(all));
    assert |multiset(ps)| == |multiset(Positives(all))|;
  }

  /** A populated suburb of the list finds an entry at least its own population. */
  lemma FoundInList(s: Suburb, all: seq<Suburb>)
    requires Populated(s) && |Positives(all)| > 0
    ensures s in all ==> 0 <= FirstAtLeast(SortAscending(Positives(all)), s.population.value)
  {
    var pos := Positives(all);
    var ps := SortAscending(pos);
    var v := s.population.value;
    assert multiset(ps) == multiset(pos);
    SortedPositives(all);
    if s in all {
      if v > 0 {
        assert PopOrZero(s) == v;
        assert v in multiset(pos);
        assert v in ps;
        var k :| 0 <= k < |ps| && ps[k] == v;
      } else {
        assert ps[0] in multiset(ps);
        assert ps[0] in pos;
      }
    }
  }

  /** The found position as a fraction of the number of populations. */
  function Ratio(i: int, n: int): (q: real)
    requires 0 < n && -1 <= i < n
    ensures -1.0 <= q < 1.0
    ensures 0 <= i ==> 0.0 <= q
  {
    var q := i as real / n as real;
    assert q * n as real == i as real;
    q
  }

  /** The number of entries of `ps` below `v`. */
  function CountBelow(ps: seq<int>, v: int): (c: nat)
    ensures c <= |ps|
  {
    if ps == [] then 0
    else CountBelow(ps[..|ps| - 1], v) + (if ps[|ps| - 1] < v then 1 else 0)
  }

  lemma {:induction false} CountBelowConcat(a: seq<int>, b: seq<int>, v: int)
    ensures CountBelow(a + b, v) == CountBelow(a, v) + CountBelow(b, v)
    decreases |b|
  {
    if b == [] {
      assert a + b == a;
    } else {
      assert (a + b)[..|a + b| - 1] == a + b[..|b| - 1];
      CountBelowConcat(a, b[..|b| - 1], v);
    }
  }

  /** Counting does not depend on the order of the entries. */
  lemma {:induction false} CountBelowPermutation(a: seq<int>, b: seq<int>, v: int)
    requires multiset(a) == multiset(b)
    ensures CountBelow(a, v) == CountBelow(b, v)
    decreases |a|
  {
    if a != [] {
      var front := a[..|a| - 1];
      var x := a[|a| - 1];
      assert a == front + [x];
      assert x in multiset(b);
      var j :| 0 <= j < |b| && b[j] == x;
      RemoveAt(b, j);
      assert multiset(front) == multiset(a) - multiset{x};
      CountBelowPermutation(front, b[..j] + b[j + 1..], v);
      CountBelowRemove(b, j, v);
    }
  }

  /** Removing the entry at `j` leaves the other entries. */
  lemma RemoveAt(b: seq<int>, j: nat)
    requires j < |b|
    ensures multiset(b[..j] + b[j + 1..]) == multiset(b) - multiset{b[j]}
  {
    assert b == b[..j] + [b[j]] + b[j + 1..];
  }

  /** Removing the entry at `j` removes it from the count exactly when it is below `v`. */
  lemma CountBelowRemove(b: seq<int>, j: nat, v: int)
    requires j < |b|
    ensures CountBelow(b, v) == CountBelow(b[..j] + b[j + 1..], v) + (if b[j] < v then 1 else 0)
  {
    assert b == b[..j] + [b[j]] + b[j + 1..];
    CountBelowConcat(b[..j] + [b[j]], b[j + 1..], v);
    CountBelowConcat(b[..j], [b[j]], v);
    CountBelowConcat(b[..j], b[j + 1..], v);
    assert CountBelow([b[j]], v) == (if b[j] < v then 1 else 0) by {
      assert [b[j]][..0] == [];
    }
  }

  /** In an ascending sequence the first entry at least `v` sits after exactly the entries below `v`. */
  lemma {:induction false} CountBelowSorted(ps: seq<int>, v: int, i: nat)
    requires Ascending(ps) && i <= |ps|
    requires forall k :: 0 <= k < i ==> ps[k] < v
    requires forall k :: i <= k < |ps| ==> ps[k] >= v
    ensures CountBelow(ps, v) == i
    decreases |ps|
  {
    if ps != [] {
      if i == |ps| {
        CountBelowSorted(ps[..|ps| - 1], v, i - 1);
      } else {
        CountBelowSorted(ps[..|ps| - 1], v, i);
      }
    }
  }

  /**
   * For a positive population the percentile is the share of positive populations strictly
   * below it: the suburb's rank among the populated suburbs.
   */
  lemma PercentileIsRank(s: Suburb, all: seq<Suburb>)
    requires s in all && s.population.Some? && s.population.value > 0
    ensures PopulationPercentile(s, all) ==
            CountBelow(Positives(all), s.population.value) as real / |Positives(all)| as real
  {
    var pos := Positives(all);
    var ps := SortAscending(pos);
    SortedPositives(all);
    FoundInList(s, all);
    var i := FirstAtLeast(ps, s.population.value);
    assert PopulationPercentile(s, all) == Ratio(i, |ps|);
    FirstAtLeastCounts(ps, pos, s.population.value);
  }

  /** In an ascending permutation of `pos`, the first entry at least `v` sits after the entries of `pos` below `v`. */
  lemma FirstAtLeastCounts(ps: seq<int>, pos: seq<int>, v: int)
    requires Ascending(ps) && multiset(ps) == multiset(pos) && 0 <= FirstAtLeast(ps, v)
    ensures CountBelow(pos, v) == FirstAtLeast(ps, v)
  {
    var i := FirstAtLeast(ps, v);
    assert forall k :: i <= k < |ps| ==> ps[k] >= v;
    CountBelowSorted(ps, v, i);
    CountBelowPermutation(ps, pos, v);
  }

  /** `x` is a neighbour of `s`: another suburb closer than 10 km. */
  predicate Near(s: Suburb, x: Suburb, geo: Geo) {
    x.id != s.id && geo.km(s.Position(), x.Position()) < 10.0
  }

  /** The suburbs of the list with another id that lie closer than 10 km, in order. */
  function Neighbours(s: Suburb, all: seq<Suburb>, geo: Geo): (nb: seq<Suburb>)
    ensures |nb| <= |all|
    ensures forall x :: x in nb <==> x in all && Near(s, x, geo)
  {
    if all == [] then []
    else
      var x := all[|all| - 1];
      Neighbours(s, all[..|all| - 1], geo) + (if Near(s, x, geo) then [x] else [])
  }

  /** The neighbours keep the input order: filtering a concatenation filters each part in turn. */
  lemma {:induction false} NeighboursConcat(s: Suburb, a: seq<Suburb>, b: seq<Suburb>, geo: Geo)
    ensures Neighbours(s, a + b, geo) == Neighbours(s, a, geo) + Neighbours(s, b, geo)
    decreases |b|
  {
    if b == [] {
      assert a + b == a;
    } else {
      var front := b[..|b| - 1];
      var x := b[|b| - 1];
      var tail := if Near(s, x, geo) then [x] else [];
      assert (a + b)[..|a + b| - 1] == a + front;
      assert (a + b)[|a + b| - 1] == x;
      assert Neighbours(s, a + b, geo) == Neighbours(s, a + front, geo) + tail;
      assert Neighbours(s, b, geo) == Neighbours(s, front, geo) + tail;
      NeighboursConcat(s, a, front, geo);
    }
  }

  /** A single suburb is a neighbour exactly when it has another id and lies closer than 10 km. */
  lemma NeighboursSingle(s: Suburb, x: Suburb, geo: Geo)
    ensures Neighbours(s, [x], geo) == if x.id != s.id && geo.km(s.Position(), x.Position()) < 10.0 then [x] else []
  {
    assert [x][..0] == [];
  }

  /** The sum of the populations, an absent one counted as zero. */
  function PopSum(xs: seq<Suburb>): int {
    if xs == [] then 0 else PopSum(xs[..|xs| - 1]) + PopOrZero(xs[|xs| - 1])
  }

  /** `isRegionalCenter` */
  predicate IsRegionalCenter(s: Suburb, all: seq<Suburb>, geo: Geo) {
    if !Populated(s) || s.population.value < 1000 then false
    else
      var nb := Neighbours(s, all, geo);
      |nb| == 0 || s.population.value as real > PopSum(nb) as real / |nb| as real * 1.5
  }

  /**
   * A regional centre has at least 1000 people and either no other suburb within 10 km or more
   * than one and a half times its neighbours' mean population (stated without division).
   */
  lemma RegionalCenterSpec(s: Suburb, all: seq<Suburb>, geo: Geo)
    ensures IsRegionalCenter(s, all, geo) <==>
      s.population.Some? && s.population.value >= 1000 &&
      (var nb := Neighbours(s, all, geo);
       |nb| == 0 || 2 * s.population.value * |nb| > 3 * PopSum(nb))
  {
    var nb := Neighbours(s, all, geo);
    if s.population.Some? && s.population.value >= 1000 && |nb| > 0 {
      MeanComparisonInt(s.population.value, PopSum(nb), |nb|);
    }
  }

  /** Being above one and a half times the mean compares the same as `2 v n > 3 sum` for positive `n`. */
  lemma MeanComparison(v: real, sum: real, n: real)
    requires n > 0.0
    ensures v > sum / n * 1.5 <==> 2.0 * v * n > 3.0 * sum
  {
    var m := sum / n;
    assert m * n == sum;
    assert 2.0 * v * n - 3.0 * sum == 2.0 * n * (v - m * 1.5);
    SignOfProduct(2.0 * n, v - m * 1.5);
  }

  lemma MeanComparisonInt(v: int, sum: int, n: int)
    requires n > 0
    ensures v as real > sum as real / n as real * 1.5 <==> 2 * v * n > 3 * sum
  {
    MeanComparison(v as real, sum as real, n as real);
    assert (2 * v * n) as real == 2.0 * v as real * n as real;
  }

  lemma SignOfProduct(a: real, b: real)
    requires a > 0.0
    ensures a * b > 0.0 <==> b > 0.0
  {
    if b > 0.0 {
      assert a * b > 0.0;
    } else {
      assert a * b <= 0.0;
    }
  }

  function Sum(ps: seq<int>): int {
    if ps == [] then 0 else Sum(ps[..|ps| - 1]) + ps[|ps| - 1]
  }

  function Mean(ps: seq<int>): real
    requires |ps| > 0
  {
    Sum(ps) as real / |ps| as real
  }

  function SquaredDeviations(ps: seq<int>, m: real): (r: real)
    ensures 0.0 <= r
  {
    if ps == [] then 0.0
    else
      var d := ps[|ps| - 1] as real - m;
      SquaredDeviations(ps[..|ps| - 1], m) + d * d
  }

  /** The population variance of `ps`. */
  function Variance(ps: seq<int>): (v: real)
    requires |ps| > 0
    ensures 0.0 <= v
  {
    SquaredDeviations(ps, Mean(ps)) / |ps| as real
  }

  /**
   * Above the mean by more than half a standard deviation, stated without the square root: see
   * `ThresholdWithoutSqrt`.
   */
  predicate AboveThreshold(p: real, mean: real, variance: real) {
    p > mean && (p - mean) * (p - mean) > variance / 4.0
  }

  /** The comparison against the squared deviation is the source's comparison against mean + sigma / 2. */
  lemma ThresholdWithoutSqrt(p: real, mean: real, variance: real, sigma: real)
    requires 0.0 <= sigma && sigma * sigma == variance
    ensures AboveThreshold(p, mean, variance) <==> p > mean + 0.5 * sigma
  {
    var d := p - mean;
    var h := 0.5 * sigma;
    assert variance / 4.0 == h * h;
    if d > 0.0 {
      SquareMonotone(d, h);
      SquareMonotone(h, d);
    }
  }

  /** For non-negative reals, squaring keeps the order. */
  lemma SquareMonotone(a: real, b: real)
    requires 0.0 <= a
    ensures a <= b ==> a * a <= b * b
    ensures a < b ==> a * a < b * b
  {
    if a <= b {
      assert b * b - a * a == (b - a) * (b - a) + 2.0 * a * (b - a);
      assert (b - a) * (b - a) >= 0.0;
      assert a * (b - a) >= 0.0;
    }
  }

  /** The suburb is populated and its population is above the outlier threshold of `subs`. */
  predicate Significant(s: Suburb, subs: seq<Suburb>) {
    var ps := Positives(subs);
    Populated(s) && |ps| > 0 && AboveThreshold(s.population.value as real, Mean(ps), Variance(ps))
  }

  /** `findSignificantSuburbs`: the ids of the suburbs whose population is an upper outlier. */
  function SignificantIds(subs: seq<Suburb>): (ids: set<int>)
    ensures |Positives(subs)| == 0 ==> ids == {}
    ensures forall id :: id in ids <==> exists s :: s in subs && s.id == id && Significant(s, subs)
  {
    var ps := Positives(subs);
    if |ps| == 0 then {}
    else set s | s in subs && Significant(s, subs) :: s.id
  }

  /** A populated suburb at least as populous as a significant one is significant too. */
  lemma SignificantUpwardClosed(subs: seq<Suburb>, s: Suburb, t: Suburb)
    requires Significant(s, subs) && Populated(t) && t.population.value >= s.population.value
    ensures Significant(t, subs)
  {
    var ps := Positives(subs);
    var m := Mean(ps);
    SquareMonotone(s.population.value as real - m, t.population.value as real - m);
  }

  lemma {:induction false} SumRepeat(ps: seq<int>, c: int)
    requires forall k :: 0 <= k < |ps| ==> ps[k] == c
    ensures Sum(ps) == |ps| * c
    ensures SquaredDeviations(ps, c as real) == 0.0
  {
    if ps != [] {
      SumRepeat(ps[..|ps| - 1], c);
    }
  }

  /** When every positive population is the same, no suburb is an outlier. */
  lemma EqualPopulationsNoOutliers(subs: seq<Suburb>, c: int)
    requires forall s :: s in subs ==> s.population == Some(c)
    ensures SignificantIds(subs) == {}
  {
    var ps := Positives(subs);
    if |ps| > 0 {
      assert forall k :: 0 <= k < |ps| ==> ps[k] == c by {
        EqualPositives(subs, c);
      }
      SumRepeat(ps, c);
      MeanOfRepeat(|ps|, c);
      assert Mean(ps) == c as real;
      assert Variance(ps) == 0.0;
      forall s | s in subs ensures !Significant(s, subs) {
        assert s.population.value as real == Mean(ps);
      }
      forall id ensures id !in SignificantIds(subs) {
      }
    }
  }

  /** `n` copies of `c` average to `c`. */
  lemma MeanOfRepeat(n: int, c: int)
    requires n > 0
    ensures (n * c) as real / n as real == c as real
  {
    assert (n * c) as real == n as real * c as real;
  }

  lemma {:induction false} EqualPositives(subs: seq<Suburb>, c: int)
    requires forall s :: s in subs ==> s.population == Some(c)
    ensures forall k :: 0 <= k < |Positives(subs)| ==> Positives(subs)[k] == c
  {
    if subs != [] {
      assert forall s :: s in subs[..|subs| - 1] ==> s in subs;
      EqualPositives(subs[..|subs| - 1], c);
    }
  }
}
