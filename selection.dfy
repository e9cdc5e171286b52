/**
 * `smartSelectLocations` (src/utils/footer-locations.ts:256-369): every suburb is scored, the
 * scores are sorted (stably, highest first), each distance ring contributes its best suburbs up
 * to a quota, and the rest of the slots are filled in score order.
 *
 * The selection works on positions of the input sequence, as the source's `includes` tests
 * compare suburb objects by identity.
 */
module Selection {
  import opened Common
  import opened Sorting
  import opened Geo
  import opened StaticSuburbs
  import opened Significance
  import opened Commercial
  import opened Rings

  /** The percentile share of the score: steps of 100, 80, 60 and 40 points, or 40 times the percentile. */
  function PercentilePoints(p: real): (points: real)
    ensures 0.0 <= p < 1.0 ==> 0.0 <= points <= 100.0
  {
    if p > 0.9 then 100.0
    else if p > 0.8 then 80.0
    else if p > 0.7 then 60.0
    else if p > 0.5 then 40.0
    else p * 40.0
  }

  /** The density is present, not zero, and above 1000. */
  predicate Dense(s: Suburb) {
    s.populationDensity.Some? && s.populationDensity.value != 0.0 && s.populationDensity.value > 1000.0
  }

  /** The score of one suburb, given the outlier ids and the commercial-centre ids of the whole list. */
  function Score(s: Suburb, all: seq<Suburb>, significant: set<int>, commercial: set<int>, geo: Geo): (score: real)
    ensures !Populated(s) ==> score == -1000.0
    ensures Populated(s) && s in all ==> 0.0 <= score <= 190.0
    ensures Populated(s) ==> -40.0 <= score <= 190.0
  {
    if !Populated(s) then -1000.0
    else
      PercentilePoints(PopulationPercentile(s, all))
      + (if IsRegionalCenter(s, all, geo) then 30.0 else 0.0)
      + (if s.id in commercial then 25.0 else 0.0)
      + (if s.id in significant then 20.0 else 0.0)
      + (if Dense(s) then 15.0 else 0.0)
  }

  function Scores(subs: seq<Suburb>, significant: set<int>, commercial: set<int>, geo: Geo): (scores: seq<real>)
    ensures |scores| == |subs|
    ensures forall k :: 0 <= k < |subs| ==> scores[k] == Score(subs[k], subs, significant, commercial, geo)
  {
    seq(|subs|, k requires 0 <= k < |subs| => Score(subs[k], subs, significant, commercial, geo))
  }

  /** The score of every suburb, in input order. */
  method ScoreSuburbs(subs: seq<Suburb>, significant: set<int>, commercial: set<int>, geo: Geo) returns (scores: seq<real>)
    ensures scores == Scores(subs, significant, commercial, geo)
  {
    scores := [];
    for i := 0 to |subs|
      invariant |scores| == i
      invariant forall k :: 0 <= k < i ==> scores[k] == Score(subs[k], subs, significant, commercial, geo)
    {
      var score := ScoreSuburb(subs[i], subs, significant, commercial, geo);
      scores := scores + [score];
    }
    var spec := Scores(subs, significant, commercial, geo);
    assert forall k :: 0 <= k < |subs| ==> scores[k] == spec[k];
  }

  /** The body of the scoring callback: the score accumulated bonus by bonus. */
  method ScoreSuburb(suburb: Suburb, subs: seq<Suburb>, significant: set<int>, commercial: set<int>, geo: Geo)
    returns (score: real)
    ensures score == Score(suburb, subs, significant, commercial, geo)
  {
    score := 0.0;
    if !Populated(suburb) {
      score := -1000.0;
    } else {
      var percentile := PopulationPercentile(suburb, subs);
      if percentile > 0.9 {
        score := score + 100.0;
      } else if percentile > 0.8 {
        score := score + 80.0;
      } else if percentile > 0.7 {
        score := score + 60.0;
      } else if percentile > 0.5 {
        score := score + 40.0;
      } else {
        score := score + percentile * 40.0;
      }
      if IsRegionalCenter(suburb, subs, geo) {
        score := score + 30.0;
      }
      if suburb.id in commercial {
        score := score + 25.0;
      }
      if suburb.id in significant {
        score := score + 20.0;
      }
      if Dense(suburb) {
        score := score + 15.0;
      }
    }
  }

  /** A comparator by descending score is an ascending sort by the negated score. */
  function Negated(scores: seq<real>): (keys: seq<real>)
    ensures |keys| == |scores| && forall k :: 0 <= k < |scores| ==> keys[k] == -scores[k]
  {
    seq(|scores|, k requires 0 <= k < |scores| => -scores[k])
  }

  function ScoresOf(subs: seq<Suburb>, geo: Geo): seq<real> {
    Scores(subs, SignificantIds(subs), CommercialCenterIds(subs, geo), geo)
  }

  /** `scoredSuburbs` after the sort: input positions, highest score first, ties in input order. */
  function ScoreOrder(subs: seq<Suburb>, geo: Geo): seq<nat> {
    StableOrder(Negated(ScoresOf(subs, geo)))
  }

  /** Along the score order every populated suburb comes before every suburb without a population. */
  lemma PopulatedFirst(subs: seq<Suburb>, geo: Geo, i: nat, j: nat)
    requires i < j < |subs|
    requires Populated(subs[ScoreOrder(subs, geo)[j]])
    ensures Populated(subs[ScoreOrder(subs, geo)[i]])
  {
    var scores := ScoresOf(subs, geo);
    var keys := Negated(scores);
    var order := StableOrder(keys);
    SortedKeys(keys, order, i, j);
    assert subs[order[j]] in subs;
  }

  /** `ringQuotas`: a quarter, 35 %, 30 % and a tenth of the count, with minimums of 2, 3 and 3. */
  function Quota(r: Ring, count: nat): nat {
    match r
    case Inner => Max(2, count * 25 / 100)
    case Middle => Max(3, count * 35 / 100)
    case Outer => Max(3, count * 30 / 100)
    case Satellite => count * 10 / 100
  }

  /** One iteration of either pass: stop once `count` are selected, skip a suburb already selected. */
  function Push(sel: seq<nat>, x: nat, count: nat): seq<nat> {
    if |sel| >= count || x in sel then sel else sel + [x]
  }

  /** A whole pass over `xs`. */
  function Fill(sel: seq<nat>, xs: seq<nat>, count: nat): seq<nat> {
    if xs == [] then sel else Push(Fill(sel, xs[..|xs| - 1], count), xs[|xs| - 1], count)
  }

  /**
   * A pass only appends, never duplicates, never exceeds `count` (unless it starts above it),
   * takes only from `xs`, and when it ends short of `count` it has taken every element of `xs`.
   */
  lemma {:induction false} FillSpec(sel: seq<nat>, xs: seq<nat>, count: nat)
    ensures var r := Fill(sel, xs, count);
      && |sel| <= |r| && r[..|sel|] == sel
      && (Distinct(sel) ==> Distinct(r))
      && (|sel| <= count ==> |r| <= count)
      && (forall x :: x in r ==> x in sel || x in xs)
      && (|r| < count ==> forall x :: x in xs ==> x in r)
  {
    if xs != [] {
      var front := xs[..|xs| - 1];
      FillSpec(sel, front, count);
      var f := Fill(sel, front, count);
      assert forall x :: x in xs ==> x in front || x == xs[|xs| - 1];
      assert forall x :: x in front ==> x in xs;
      if !(|f| >= count || xs[|xs| - 1] in f) {
        assert (f + [xs[|xs| - 1]])[..|sel|] == f[..|sel|];
      }
    }
  }

  /** Once `count` are selected, the rest of a pass changes nothing: the `break`. */
  lemma {:induction false} FillSaturated(sel: seq<nat>, xs: seq<nat>, k: nat, count: nat)
    requires k <= |xs| && |Fill(sel, xs[..k], count)| >= count
    ensures Fill(sel, xs, count) == Fill(sel, xs[..k], count)
    decreases |xs|
  {
    if |xs| > k {
      var front := xs[..|xs| - 1];
      assert front[..k] == xs[..k];
      FillSaturated(sel, front, k, count);
    } else {
      assert xs[..k] == xs;
    }
  }

  /**
   * Over distinct candidates, a pass appends exactly the candidates not yet selected, in their
   * order, until `count` are selected.
   */
  lemma {:induction false} FillExact(sel: seq<nat>, xs: seq<nat>, count: nat)
    requires Distinct(xs) && |sel| <= count
    ensures Fill(sel, xs, count) == sel + Take(Without(xs, sel), count - |sel|)
    decreases |xs|
  {
    if xs != [] {
      var front := xs[..|xs| - 1];
      var x := xs[|xs| - 1];
      assert Distinct(front) && x !in front by {
        forall i, j | 0 <= i < j < |front| ensures front[i] != front[j] {
          assert front[i] == xs[i] && front[j] == xs[j];
        }
        forall i | 0 <= i < |front| ensures front[i] != x {
          assert front[i] == xs[i];
        }
      }
      FillExact(sel, front, count);
      var k := count - |sel|;
      var w := Without(front, sel);
      var f := Fill(sel, front, count);
      assert f == sel + Take(w, k);
      var extra := if x !in sel then [x] else [];
      assert Without(xs, sel) == w + extra;
      if |f| >= count {
        assert |Take(w, k)| == k;
        assert Take(w + extra, k) == Take(w, k);
      } else if x in f {
        assert x !in w;
        var t := Take(w, k);
        assert forall i :: 0 <= i < |t| ==> t[i] == w[i];
        assert x !in t;
        assert x in sel;
      } else {
        assert Take(w, k) == w;
        assert Take(w + extra, k) == w + [x];
      }
    }
  }

  /** The ring's suburbs in score order, cut to the ring's quota. */
  function RingPicks(order: seq<nat>, rings: DistanceRings, r: Ring, count: nat): seq<nat> {
    Take(Keep(order, rings.Members(r)), Quota(r, count))
  }

  /** The first pass visits the rings in the order the quota table lists them. */
  function RingAt(t: nat): Ring
    requires t < 4
  {
    [Inner, Middle, Outer, Satellite][t]
  }

  /** The selection after the first pass has visited `t` rings. */
  function FirstPass(order: seq<nat>, rings: DistanceRings, count: nat, t: nat): seq<nat>
    requires t <= 4
  {
    if t == 0 then [] else Fill(FirstPass(order, rings, count, t - 1), RingPicks(order, rings, RingAt(t - 1), count), count)
  }

  /** The second pass runs only while there are free slots. */
  function SecondPass(sel: seq<nat>, order: seq<nat>, count: nat): seq<nat> {
    if |sel| < count then Fill(sel, order, count) else sel
  }

  /**
   * The positions `smartSelectLocations` returns: none for an empty input, otherwise
   * `min(count, |subs|)` distinct positions of the input.
   */
  function SelectionIndices(subs: seq<Suburb>, count: nat, geo: Geo): (sel: seq<nat>)
    ensures Distinct(sel) && InBounds(subs, sel)
    ensures |sel| == Min(count, |subs|)
  {
    if |subs| == 0 then []
    else
      ScoreOrderSpec(subs, geo);
      PassesSpec(ScoreOrder(subs, geo), DistanceRingsOf(subs), count, subs);
      Passes(ScoreOrder(subs, geo), DistanceRingsOf(subs), count)
  }

  /** Both passes over a score order, cut to the first `count` positions. */
  function Passes(order: seq<nat>, rings: DistanceRings, count: nat): seq<nat> {
    Take(SecondPass(FirstPass(order, rings, count, 4), order, count), count)
  }

  /** The first pass selects distinct positions from the score order and at most `count` of them. */
  lemma {:induction false} FirstPassSpec(order: seq<nat>, rings: DistanceRings, count: nat, t: nat)
    requires t <= 4
    ensures var r := FirstPass(order, rings, count, t);
      Distinct(r) && |r| <= count && forall x :: x in r ==> x in order
  {
    if t > 0 {
      FirstPassSpec(order, rings, count, t - 1);
      var picks := RingPicks(order, rings, RingAt(t - 1), count);
      FillSpec(FirstPass(order, rings, count, t - 1), picks, count);
      assert forall x :: x in picks ==> x in Keep(order, rings.Members(RingAt(t - 1)));
    }
  }

  /** The score order lists every input position exactly once. */
  lemma ScoreOrderSpec(subs: seq<Suburb>, geo: Geo)
    ensures Distinct(ScoreOrder(subs, geo))
    ensures forall x :: x in ScoreOrder(subs, geo) <==> 0 <= x < |subs|
  {
  }

  /** Both passes over an order of the positions of `subs` select `min(count, |subs|)` distinct positions of it. */
  lemma PassesSpec<T>(order: seq<nat>, rings: DistanceRings, count: nat, subs: seq<T>)
    requires Distinct(order) && forall x :: x in order <==> 0 <= x < |subs|
    ensures Distinct(Passes(order, rings, count)) && |Passes(order, rings, count)| == Min(count, |subs|)
    ensures InBounds(subs, Passes(order, rings, count))
  {
    FirstPassSpec(order, rings, count, 4);
    SecondPassSpec(FirstPass(order, rings, count, 4), order, count, |subs|);
  }

  /**
   * Starting from at most `count` distinct positions of an order of `0..n-1`, the second pass
   * ends with exactly `min(count, n)` distinct positions.
   */
  lemma SecondPassSpec(first: seq<nat>, order: seq<nat>, count: nat, n: nat)
    requires Distinct(order) && forall x :: x in order <==> 0 <= x < n
    requires Distinct(first) && |first| <= count && forall x :: x in first ==> x in order
    ensures var second := SecondPass(first, order, count);
      Take(second, count) == second && Distinct(second) && |second| == Min(count, n) &&
      forall k :: 0 <= k < |second| ==> second[k] < n
  {
    var second := SecondPass(first, order, count);
    if |first| < count {
      FillSpec(first, order, count);
    }
    assert forall x :: x in second ==> x in order;
    forall k | 0 <= k < |second| ensures second[k] < n {
      assert second[k] in order;
    }
    assert |order| == n by {
      var range := seq(n, i requires 0 <= i < n => i);
      forall x | 0 <= x < n ensures x in range {
        assert range[x] == x;
      }
      SubsetLength(order, range);
      SubsetLength(range, order);
    }
    SubsetLength(second, order);
    if |second| < count {
      SubsetLength(order, second);
    }
  }

  /**
   * In the first pass no ring contributes more than its quota: ring members can only come from
   * that ring's own picks, because the rings are disjoint.
   */
  lemma FirstPassQuota(subs: seq<Suburb>, count: nat, geo: Geo, r: Ring)
    ensures var first := FirstPass(ScoreOrder(subs, geo), DistanceRingsOf(subs), count, 4);
      |Keep(first, DistanceRingsOf(subs).Members(r))| <= Quota(r, count)
  {
    var order := ScoreOrder(subs, geo);
    var rings := DistanceRingsOf(subs);
    var first := FirstPass(order, rings, count, 4);
    var picks := RingPicks(order, rings, r, count);
    FirstPassSpec(order, rings, count, 4);
    FirstPassFrom(order, rings, count, 4, subs, r);
    KeepDistinct(first, rings.Members(r));
    KeepDistinct(order, rings.Members(r));
    var kept := Keep(first, rings.Members(r));
    assert Distinct(picks) by {
      var all := Keep(order, rings.Members(r));
      assert forall i, j :: 0 <= i < j < |picks| ==> picks[i] == all[i] && picks[j] == all[j];
    }
    SubsetLength(kept, picks);
  }

  /** A member of ring `r` selected by the first pass is one of ring `r`'s picks. */
  lemma {:induction false} FirstPassFrom(order: seq<nat>, rings: DistanceRings, count: nat, t: nat, subs: seq<Suburb>, r: Ring)
    requires t <= 4 && rings == DistanceRingsOf(subs)
    ensures forall x :: x in FirstPass(order, rings, count, t) && x in rings.Members(r) ==> x in RingPicks(order, rings, r, count)
  {
    if t > 0 {
      FirstPassFrom(order, rings, count, t - 1, subs, r);
      var ring := RingAt(t - 1);
      var picks := RingPicks(order, rings, ring, count);
      FillSpec(FirstPass(order, rings, count, t - 1), picks, count);
      forall x | x in picks && x in rings.Members(r) ensures ring == r {
        assert x in Keep(order, rings.Members(ring));
        RingsPartition(subs, x, ring);
        RingsPartition(subs, x, r);
      }
    }
  }

  /** The loop body shared by both passes, over the whole of `xs`. */
  method SelectFrom(sel: seq<nat>, xs: seq<nat>, count: nat) returns (selected: seq<nat>)
    ensures selected == Fill(sel, xs, count)
  {
    selected := sel;
    for k := 0 to |xs|
      invariant selected == Fill(sel, xs[..k], count)
    {
      if |selected| >= count {
        FillSaturated(sel, xs, k, count);
        return;
      }
      if xs[k] !in selected {
        selected := selected + [xs[k]];
      }
      assert xs[..k + 1][..k] == xs[..k];
    }
    assert xs[..|xs|] == xs;
  }

  /**
   * What `smartSelectLocations` returns: `min(count, |subs|)` suburbs of the input, each input
   * entry at most once.
   */
  function SmartSelection(subs: seq<Suburb>, count: nat, geo: Geo): (r: seq<Suburb>)
    ensures |r| == Min(count, |subs|)
    ensures forall x :: x in r ==> x in subs
    ensures Distinct(subs) ==> Distinct(r)
  {
    var idx := SelectionIndices(subs, count, geo);
    PickDistinct(subs, idx);
    Pick(subs, idx)
  }

  /** `smartSelectLocations` */
  method SmartSelectLocations(subs: seq<Suburb>, count: nat, geo: Geo) returns (result: seq<Suburb>)
    ensures result == SmartSelection(subs, count, geo)
  {
    if |subs| == 0 {
      return [];
    }
    var significantSuburbs := SignificantIds(subs);
    var commercialCenters := DetectCommercialCenters(subs, geo);
    var distanceRings := AnalyzeDistanceRings(subs);
    var scores := ScoreSuburbs(subs, significantSuburbs, commercialCenters, geo);
    var scoredSuburbs := StableOrder(Negated(scores));
    assert scoredSuburbs == ScoreOrder(subs, geo);
    var finalSelection := SelectWithQuotas(scoredSuburbs, distanceRings, count);
    assert finalSelection == SelectionIndices(subs, count, geo);
    result := Pick(subs, finalSelection);
  }

  /** Both selection passes of `smartSelectLocations` and the final `slice(0, count)`. */
  method SelectWithQuotas(scoredSuburbs: seq<nat>, distanceRings: DistanceRings, count: nat) returns (finalSelection: seq<nat>)
    ensures finalSelection == Passes(scoredSuburbs, distanceRings, count)
  {
    var selected: seq<nat> := [];
    for t := 0 to 4
      invariant selected == FirstPass(scoredSuburbs, distanceRings, count, t)
    {
      var ringSuburbs := Take(Keep(scoredSuburbs, distanceRings.Members(RingAt(t))), Quota(RingAt(t), count));
      selected := SelectFrom(selected, ringSuburbs, count);
    }
    if |selected| < count {
      selected := SelectFrom(selected, scoredSuburbs, count);
    }
    finalSelection := Take(selected, count);
  }

  lemma PickDistinct<T>(xs: seq<T>, idx: seq<nat>)
    requires InBounds(xs, idx) && Distinct(idx)
    ensures forall x :: x in Pick(xs, idx) ==> x in xs
    ensures Distinct(xs) ==> Distinct(Pick(xs, idx))
  {
    var r := Pick(xs, idx);
    forall x | x in r ensures x in xs {
      var k :| 0 <= k < |r| && r[k] == x;
    }
  }
}
