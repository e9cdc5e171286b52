/**
 * `analyzeDistanceRings` (src/utils/footer-locations.ts:199-251): the suburbs sorted by distance
 * and split into inner, middle, outer and satellite rings at the first three jumps of more than
 * 2 km, with default and clamped boundaries.
 *
 * A ring holds the suburb objects themselves, and the selection later tests membership by object
 * identity; the model therefore lists the POSITIONS of the suburbs in the input sequence.
 */
module Rings {
  import opened Common
  import opened Sorting
  import opened StaticSuburbs

  datatype Ring = Inner | Middle | Outer | Satellite

  datatype Bounds = Bounds(inner: real, middle: real, outer: real)

  /** The four ring arrays, as positions of the input suburbs. */
  datatype DistanceRings = DistanceRings(inner: seq<nat>, middle: seq<nat>, outer: seq<nat>, satellite: seq<nat>)
  {
    function Members(r: Ring): seq<nat> {
      match r
      case Inner => inner
      case Middle => middle
      case Outer => outer
      case Satellite => satellite
    }
  }

  predicate AscendingReals(ds: seq<real>) {
    forall i, j :: 0 <= i < j < |ds| ==> ds[i] <= ds[j]
  }

  /**
   * The `gaps` loop over the sorted distances `ds`: each distance more than 2 km beyond the one
   * before it, in order.
   */
  function Gaps(ds: seq<real>): (g: seq<real>)
    ensures |g| <= |ds|
  {
    if |ds| < 2 then []
    else Gaps(ds[..|ds| - 1]) + (if ds[|ds| - 1] - ds[|ds| - 2] > 2.0 then [ds[|ds| - 1]] else [])
  }

  /** Every break is a distance that lies more than 2 km beyond the distance before it. */
  lemma {:induction false} GapsAreJumps(ds: seq<real>)
    ensures forall x :: x in Gaps(ds) ==> exists i :: 1 <= i < |ds| && x == ds[i] && ds[i] - ds[i - 1] > 2.0
  {
    if |ds| >= 2 {
      var front := ds[..|ds| - 1];
      GapsAreJumps(front);
      assert forall i :: 0 <= i < |front| ==> front[i] == ds[i];
    }
  }

  /** Every distance more than 2 km beyond the distance before it is recorded as a break. */
  lemma {:induction false} JumpsRecorded(ds: seq<real>)
    ensures forall i :: 1 <= i < |ds| && ds[i] - ds[i - 1] > 2.0 ==> ds[i] in Gaps(ds)
  {
    if |ds| >= 2 {
      var front := ds[..|ds| - 1];
      JumpsRecorded(front);
      assert forall i :: 0 <= i < |front| ==> front[i] == ds[i];
    }
  }

  /** Over ascending distances that are not negative, each break lies more than 2 km beyond zero and beyond the break before it. */
  lemma GapsIncrease(ds: seq<real>)
    requires AscendingReals(ds) && forall k :: 0 <= k < |ds| ==> 0.0 <= ds[k]
    ensures forall k :: 0 <= k < |Gaps(ds)| ==> Gaps(ds)[k] > 2.0
    ensures forall i, j :: 0 <= i < j < |Gaps(ds)| ==> Gaps(ds)[j] > Gaps(ds)[i] + 2.0
  {
    GapsAboveTwo(ds);
    GapsSpaced(ds);
  }

  /** Over distances that are not negative, each break lies more than 2 km beyond zero. */
  lemma GapsAboveTwo(ds: seq<real>)
    requires forall k :: 0 <= k < |ds| ==> 0.0 <= ds[k]
    ensures forall k :: 0 <= k < |Gaps(ds)| ==> Gaps(ds)[k] > 2.0
  {
    var g := Gaps(ds);
    GapsAreJumps(ds);
    forall k | 0 <= k < |g| ensures g[k] > 2.0 {
      assert g[k] in g;
    }
  }

  /** Over ascending distances, each break lies more than 2 km beyond the break before it. */
  lemma {:induction false} GapsSpaced(ds: seq<real>)
    requires AscendingReals(ds)
    ensures forall i, j :: 0 <= i < j < |Gaps(ds)| ==> Gaps(ds)[j] > Gaps(ds)[i] + 2.0
  {
    if |ds| >= 2 {
      var n := |ds|;
      var front := ds[..n - 1];
      var g := Gaps(ds);
      GapsSpaced(front);
      GapsAreJumps(front);
      var gf := Gaps(front);
      assert g == gf + (if ds[n - 1] - ds[n - 2] > 2.0 then [ds[n - 1]] else []);
      forall i, j | 0 <= i < j < |g| ensures g[j] > g[i] + 2.0 {
        if j < |gf| {
          assert g[j] == gf[j] && g[i] == gf[i];
        } else {
          assert g[i] == gf[i] && gf[i] in gf;
          var t :| 1 <= t < |front| && gf[i] == front[t] && front[t] - front[t - 1] > 2.0;
          assert gf[i] <= ds[n - 2];
        }
      }
    }
  }

  /** Gap `k`, or the default when there is no such gap or it is zero (zero counts as missing). */
  function GapOr(g: seq<real>, k: nat, default: real): real {
    if k < |g| && g[k] != 0.0 then g[k] else default
  }

  /** The three ring boundaries: the first three breaks, defaulting to 10, 20 and 30 km, clamped. */
  function RingBounds(g: seq<real>): (b: Bounds)
    ensures b.inner == (if 0 < |g| && g[0] != 0.0 && g[0] <= 15.0 then g[0] else 10.0)
    ensures b.middle == (if 1 < |g| && g[1] != 0.0 && g[1] <= 25.0 then g[1] else 20.0)
    ensures b.outer == (if 2 < |g| && g[2] != 0.0 && g[2] <= 40.0 then g[2]
                        else if 2 < |g| && g[2] > 40.0 then 35.0 else 30.0)
    ensures b.inner <= 15.0 && b.middle <= 25.0 && b.outer <= 40.0
  {
    var inner := GapOr(g, 0, 10.0);
    var middle := GapOr(g, 1, 20.0);
    var outer := GapOr(g, 2, 30.0);
    Bounds(if inner > 15.0 then 10.0 else inner,
           if middle > 25.0 then 20.0 else middle,
           if outer > 40.0 then 35.0 else outer)
  }

  /** The ring a distance falls in: the first boundary it does not exceed. */
  function RingOf(d: real, b: Bounds): Ring {
    if d <= b.inner then Inner
    else if d <= b.middle then Middle
    else if d <= b.outer then Outer
    else Satellite
  }

  /** The positions of `order`, in that order, whose distance falls in ring `r`. */
  function Assign(order: seq<nat>, d: seq<real>, b: Bounds, r: Ring): (m: seq<nat>)
    requires InBounds(d, order)
    ensures InBounds(d, m) && |m| <= |order|
  {
    if order == [] then []
    else
      var p := order[|order| - 1];
      Assign(order[..|order| - 1], d, b, r) + (if RingOf(d[p], b) == r then [p] else [])
  }

  /** A ring holds exactly the positions of `order` whose distance falls in it. */
  lemma {:induction false} AssignMembers(order: seq<nat>, d: seq<real>, b: Bounds, r: Ring)
    requires InBounds(d, order)
    ensures forall p :: p in Assign(order, d, b, r) <==> p in order && RingOf(d[p], b) == r
  {
    if order != [] {
      var front := order[..|order| - 1];
      AssignMembers(front, d, b, r);
      assert forall p :: p in order <==> p in front || p == order[|order| - 1];
    }
  }

  /** One more position of `order` lands in exactly the ring its distance falls in. */
  lemma AssignStep(order: seq<nat>, d: seq<real>, b: Bounds, k: nat)
    requires InBounds(d, order) && k < |order|
    ensures forall r: Ring ::
      Assign(order[..k + 1], d, b, r) == Assign(order[..k], d, b, r) + (if RingOf(d[order[k]], b) == r then [order[k]] else [])
  {
    assert order[..k + 1][..k] == order[..k];
  }

  /** The input positions sorted by distance, stably, on a copy of the list (footer-locations.ts:204). */
  function DistanceOrder(subs: seq<Suburb>): seq<nat> {
    StableOrder(DistanceKeys(subs))
  }

  /** The distances along the distance order. */
  function SortedDistances(subs: seq<Suburb>): (ds: seq<real>)
    ensures |ds| == |subs| && AscendingReals(ds)
  {
    var keys := DistanceKeys(subs);
    var order := StableOrder(keys);
    assert forall i, j :: 0 <= i < j < |order| ==> keys[order[i]] <= keys[order[j]];
    Pick(keys, order)
  }

  function BoundsOf(subs: seq<Suburb>): Bounds {
    RingBounds(Gaps(SortedDistances(subs)))
  }

  /** What `analyzeDistanceRings` returns. */
  function DistanceRingsOf(subs: seq<Suburb>): DistanceRings {
    var keys := DistanceKeys(subs);
    var order := DistanceOrder(subs);
    var b := BoundsOf(subs);
    DistanceRings(Assign(order, keys, b, Inner), Assign(order, keys, b, Middle),
                  Assign(order, keys, b, Outer), Assign(order, keys, b, Satellite))
  }

  /** `analyzeDistanceRings` */
  method AnalyzeDistanceRings(subs: seq<Suburb>) returns (rings: DistanceRings)
    ensures rings == DistanceRingsOf(subs)
  {
    var keys := DistanceKeys(subs);
    var sorted := StableOrder(keys);
    rings := DistanceRings([], [], [], []);
    if |sorted| == 0 {
      return;
    }
    ghost var ds := SortedDistances(subs);
    var gaps: seq<real> := [];
    for i := 1 to |sorted|
      invariant gaps == Gaps(ds[..i])
    {
      var gap := keys[sorted[i]] - keys[sorted[i - 1]];
      if gap > 2.0 {
        gaps := gaps + [keys[sorted[i]]];
      }
      assert ds[..i + 1][..i] == ds[..i];
    }
    assert ds[..|sorted|] == ds;
    var innerBoundary := GapOr(gaps, 0, 10.0);
    var middleBoundary := GapOr(gaps, 1, 20.0);
    var outerBoundary := GapOr(gaps, 2, 30.0);
    if innerBoundary > 15.0 { innerBoundary := 10.0; }
    if middleBoundary > 25.0 { middleBoundary := 20.0; }
    if outerBoundary > 40.0 { outerBoundary := 35.0; }
    assert Bounds(innerBoundary, middleBoundary, outerBoundary) == BoundsOf(subs);
    rings := PlaceInRings(sorted, keys, innerBoundary, middleBoundary, outerBoundary);
  }

  /** The last loop of `analyzeDistanceRings`: each suburb, nearest first, pushed onto the first ring whose boundary it does not exceed. */
  method PlaceInRings(sorted: seq<nat>, keys: seq<real>, innerBoundary: real, middleBoundary: real, outerBoundary: real)
    returns (rings: DistanceRings)
    requires InBounds(keys, sorted)
    ensures var b := Bounds(innerBoundary, middleBoundary, outerBoundary);
      rings == DistanceRings(Assign(sorted, keys, b, Inner), Assign(sorted, keys, b, Middle),
                             Assign(sorted, keys, b, Outer), Assign(sorted, keys, b, Satellite))
  {
    ghost var b := Bounds(innerBoundary, middleBoundary, outerBoundary);
    rings := DistanceRings([], [], [], []);
    for k := 0 to |sorted|
      invariant rings.inner == Assign(sorted[..k], keys, b, Inner)
      invariant rings.middle == Assign(sorted[..k], keys, b, Middle)
      invariant rings.outer == Assign(sorted[..k], keys, b, Outer)
      invariant rings.satellite == Assign(sorted[..k], keys, b, Satellite)
    {
      AssignStep(sorted, keys, b, k);
      var distance := keys[sorted[k]];
      if distance <= innerBoundary {
        rings := rings.(inner := rings.inner + [sorted[k]]);
      } else if distance <= middleBoundary {
        rings := rings.(middle := rings.middle + [sorted[k]]);
      } else if distance <= outerBoundary {
        rings := rings.(outer := rings.outer + [sorted[k]]);
      } else {
        rings := rings.(satellite := rings.satellite + [sorted[k]]);
      }
    }
    assert sorted[..|sorted|] == sorted;
  }

  /** Every input suburb is in exactly one ring: the one its distance falls in under the boundaries. */
  lemma RingsPartition(subs: seq<Suburb>, p: nat, r: Ring)
    ensures p in DistanceRingsOf(subs).Members(r) <==> p < |subs| && RingOf(subs[p].distanceKm, BoundsOf(subs)) == r
  {
    var keys := DistanceKeys(subs);
    var order := DistanceOrder(subs);
    var b := BoundsOf(subs);
    assert DistanceRingsOf(subs).Members(r) == Assign(order, keys, b, r);
    AssignMembers(order, keys, b, r);
    assert p in order <==> p < |keys|;
    if p < |subs| {
      assert keys[p] == subs[p].distanceKm;
    }
  }

  lemma {:induction false} AssignSorted(order: seq<nat>, d: seq<real>, b: Bounds, r: Ring)
    requires InBounds(d, order) && SortedBy(d, order) && Distinct(order)
    ensures SortedBy(d, Assign(order, d, b, r)) && Distinct(Assign(order, d, b, r))
  {
    if order != [] {
      var front := order[..|order| - 1];
      var p := order[|order| - 1];
      AssignSorted(front, d, b, r);
      var m := Assign(front, d, b, r);
      AssignMembers(front, d, b, r);
      forall i | 0 <= i < |m| ensures Before(d, m[i], p) && m[i] != p {
        assert m[i] in front;
        var j :| 0 <= j < |front| && front[j] == m[i];
      }
    }
  }

  lemma {:induction false} AssignSizes(order: seq<nat>, d: seq<real>, b: Bounds)
    requires InBounds(d, order)
    ensures |Assign(order, d, b, Inner)| + |Assign(order, d, b, Middle)| +
            |Assign(order, d, b, Outer)| + |Assign(order, d, b, Satellite)| == |order|
  {
    if order != [] {
      AssignSizes(order[..|order| - 1], d, b);
    }
  }

  /**
   * Each ring lists its suburbs once each, nearest first, equal distances in input order; the
   * four rings together are as many as the input.
   */
  lemma RingsOrdered(subs: seq<Suburb>, r: Ring)
    ensures var m := DistanceRingsOf(subs).Members(r);
      && InBounds(subs, m) && Distinct(m)
      && (forall i, j :: 0 <= i < j < |m| ==> subs[m[i]].distanceKm <= subs[m[j]].distanceKm)
      && (forall i, j :: 0 <= i < j < |m| && subs[m[i]].distanceKm == subs[m[j]].distanceKm ==> m[i] < m[j])
    ensures var rings := DistanceRingsOf(subs);
      |rings.inner| + |rings.middle| + |rings.outer| + |rings.satellite| == |subs|
  {
    var keys := DistanceKeys(subs);
    var order := DistanceOrder(subs);
    var m := Assign(order, keys, BoundsOf(subs), r);
    assert DistanceRingsOf(subs).Members(r) == m;
    AssignSorted(order, keys, BoundsOf(subs), r);
    StableByDistance(subs, m);
    AssignSizes(order, keys, BoundsOf(subs));
  }

  /** Positions stably sorted by distance list each suburb once, nearest first, equal distances in input order. */
  lemma StableByDistance(subs: seq<Suburb>, m: seq<nat>)
    requires InBounds(DistanceKeys(subs), m) && SortedBy(DistanceKeys(subs), m) && Distinct(m)
    ensures InBounds(subs, m)
    ensures forall i, j :: 0 <= i < j < |m| ==> subs[m[i]].distanceKm <= subs[m[j]].distanceKm
    ensures forall i, j :: 0 <= i < j < |m| && subs[m[i]].distanceKm == subs[m[j]].distanceKm ==> m[i] < m[j]
  {
    var keys := DistanceKeys(subs);
    forall i, j | 0 <= i < j < |m|
      ensures subs[m[i]].distanceKm <= subs[m[j]].distanceKm
      ensures subs[m[i]].distanceKm == subs[m[j]].distanceKm ==> m[i] < m[j]
    {
      assert Before(keys, m[i], m[j]);
    }
  }

  /** With no negative distances the boundaries increase strictly, so the rings are disjoint distance bands. */
  lemma BoundsIncrease(subs: seq<Suburb>)
    requires forall s :: s in subs ==> 0.0 <= s.distanceKm
    ensures BoundsOf(subs).inner < BoundsOf(subs).middle < BoundsOf(subs).outer
  {
    var ds := SortedDistances(subs);
    var keys := DistanceKeys(subs);
    var order := StableOrder(keys);
    forall k | 0 <= k < |ds| ensures 0.0 <= ds[k] {
      assert subs[order[k]] in subs;
    }
    GapsIncrease(ds);
  }

  lemma {:induction false} NoJumpsNoGaps(ds: seq<real>)
    requires forall i :: 1 <= i < |ds| ==> ds[i] - ds[i - 1] <= 2.0
    ensures Gaps(ds) == []
  {
    if |ds| >= 2 {
      NoJumpsNoGaps(ds[..|ds| - 1]);
    }
  }

  /** Without any break of more than 2 km the boundaries are the defaults 10, 20 and 30 km. */
  lemma DefaultBounds(subs: seq<Suburb>)
    requires forall i :: 1 <= i < |subs| ==> SortedDistances(subs)[i] - SortedDistances(subs)[i - 1] <= 2.0
    ensures BoundsOf(subs) == Bounds(10.0, 20.0, 30.0)
  {
    NoJumpsNoGaps(SortedDistances(subs));
  }
}
