/**
 * `detectCommercialCenters` (src/utils/footer-locations.ts:149-194): the populous suburbs are
 * grouped greedily, in input order, into single-link clusters of 5 km, and the first most
 * populous member of each cluster is a commercial centre.
 */
module Commercial {
  import opened Common
  import opened Geo
  import opened StaticSuburbs
  import opened Significance

  /** The suburbs with a population of at least 2000, in input order. */
  function Candidates(subs: seq<Suburb>): (c: seq<Suburb>)
    ensures |c| <= |subs|
    ensures forall x :: x in c <==> x in subs && PopOrZero(x) >= 2000
  {
    if subs == [] then []
    else
      var x := subs[|subs| - 1];
      Candidates(subs[..|subs| - 1]) + (if PopOrZero(x) >= 2000 then [x] else [])
  }

  /** The candidates keep the input order: filtering a concatenation filters each part in turn. */
  lemma {:induction false} CandidatesConcat(a: seq<Suburb>, b: seq<Suburb>)
    ensures Candidates(a + b) == Candidates(a) + Candidates(b)
    decreases |b|
  {
    if b == [] {
      assert a + b == a;
    } else {
      var front := b[..|b| - 1];
      var x := b[|b| - 1];
      var tail := if PopOrZero(x) >= 2000 then [x] else [];
      assert (a + b)[..|a + b| - 1] == a + front;
      assert (a + b)[|a + b| - 1] == x;
      assert Candidates(a + b) == Candidates(a + front) + tail;
      assert Candidates(b) == Candidates(front) + tail;
      CandidatesConcat(a, front);
    }
  }

  /** A single suburb is a candidate exactly when its population is at least 2000. */
  lemma CandidatesSingle(x: Suburb)
    ensures Candidates([x]) == if PopOrZero(x) >= 2000 then [x] else []
  {
    assert [x][..0] == [];
  }

  /** Some member of the cluster is closer than 5 km to `s`. */
  predicate NearCluster(cluster: seq<Suburb>, s: Suburb, geo: Geo) {
    exists m :: m in cluster && geo.km(s.Position(), m.Position()) < 5.0
  }

  /** Whether some member of the cluster is closer than 5 km to `s`. */
  function AnyNear(cluster: seq<Suburb>, s: Suburb, geo: Geo): (b: bool)
    ensures b <==> NearCluster(cluster, s, geo)
  {
    if cluster == [] then false
    else
      var m := cluster[|cluster| - 1];
      assert forall x :: x in cluster <==> x in cluster[..|cluster| - 1] || x == m;
      AnyNear(cluster[..|cluster| - 1], s, geo) || geo.km(s.Position(), m.Position()) < 5.0
  }

  /** The first cluster near `s`, or the number of clusters when none is. */
  function FirstNear(clusters: seq<seq<Suburb>>, s: Suburb, geo: Geo): (k: nat)
    ensures k <= |clusters|
    ensures forall j :: 0 <= j < k ==> !NearCluster(clusters[j], s, geo)
    ensures k < |clusters| ==> NearCluster(clusters[k], s, geo)
  {
    if clusters == [] then 0
    else if AnyNear(clusters[0], s, geo) then 0
    else
      var k := FirstNear(clusters[1..], s, geo);
      assert forall j :: 1 <= j < |clusters| ==> clusters[j] == clusters[1..][j - 1];
      k + 1
  }

  /** Every member after the first of every cluster is near one of the members before it. */
  predicate SingleLinked(clusters: seq<seq<Suburb>>, geo: Geo) {
    forall k, p :: 0 <= k < |clusters| && 0 < p < |clusters[k]| ==> NearCluster(clusters[k][..p], clusters[k][p], geo)
  }

  /** One step of the outer loop: `s` joins the first cluster near it, or starts a new one. */
  function Join(clusters: seq<seq<Suburb>>, s: Suburb, geo: Geo): (r: seq<seq<Suburb>>)
    ensures |clusters| <= |r| <= |clusters| + 1
  {
    var k := FirstNear(clusters, s, geo);
    if k < |clusters| then clusters[k := clusters[k] + [s]] else clusters + [[s]]
  }

  /** A join keeps the clusters non-empty and single-linked. */
  lemma JoinLinked(clusters: seq<seq<Suburb>>, s: Suburb, geo: Geo)
    requires SingleLinked(clusters, geo)
    requires forall k :: 0 <= k < |clusters| ==> |clusters[k]| > 0
    ensures SingleLinked(Join(clusters, s, geo), geo)
    ensures forall k :: 0 <= k < |Join(clusters, s, geo)| ==> |Join(clusters, s, geo)[k]| > 0
  {
    var k := FirstNear(clusters, s, geo);
    if k < |clusters| {
      var grown := clusters[k] + [s];
      assert grown[..|clusters[k]|] == clusters[k];
      assert forall p :: 0 < p < |clusters[k]| ==> grown[..p] == clusters[k][..p] && grown[p] == clusters[k][p];
    }
  }

  /** A join keeps every earlier member where it was and places `s`, and nothing else. */
  lemma JoinMembers(clusters: seq<seq<Suburb>>, s: Suburb, geo: Geo)
    ensures forall k, x :: 0 <= k < |Join(clusters, s, geo)| && x in Join(clusters, s, geo)[k] ==>
                           x == s || (k < |clusters| && x in clusters[k])
    ensures forall k, x :: 0 <= k < |clusters| && x in clusters[k] ==> x in Join(clusters, s, geo)[k]
    ensures exists k :: 0 <= k < |Join(clusters, s, geo)| && s in Join(clusters, s, geo)[k]
  {
    var k := FirstNear(clusters, s, geo);
    var r := Join(clusters, s, geo);
    if k < |clusters| {
      assert s in r[k];
    } else {
      assert s in r[|clusters|];
    }
  }

  /** The clusters after the outer loop has seen every candidate. */
  function Clusters(cands: seq<Suburb>, geo: Geo): (r: seq<seq<Suburb>>)
    ensures |r| <= |cands|
  {
    if cands == [] then []
    else Join(Clusters(cands[..|cands| - 1], geo), cands[|cands| - 1], geo)
  }

  /** There are clusters exactly when there are candidates, and none of them is empty. */
  lemma {:induction false} ClustersNonEmpty(cands: seq<Suburb>, geo: Geo)
    ensures var r := Clusters(cands, geo);
      && (|r| == 0 <==> |cands| == 0)
      && (forall k :: 0 <= k < |r| ==> |r[k]| > 0)
  {
    if cands != [] {
      var front := cands[..|cands| - 1];
      ClustersNonEmpty(front, geo);
      JoinMembers(Clusters(front, geo), cands[|cands| - 1], geo);
      var r := Clusters(cands, geo);
      forall k | 0 <= k < |r| ensures |r[k]| > 0 {
        if k < |Clusters(front, geo)| {
          var x := Clusters(front, geo)[k][0];
          assert x in Clusters(front, geo)[k];
        } else {
          var j :| 0 <= j < |r| && cands[|cands| - 1] in r[j];
          assert j == k || j < |Clusters(front, geo)|;
        }
      }
    }
  }

  /** Every member after the first of a cluster is within 5 km of an earlier member. */
  lemma {:induction false} ClustersLinked(cands: seq<Suburb>, geo: Geo)
    ensures SingleLinked(Clusters(cands, geo), geo)
  {
    if cands != [] {
      var front := cands[..|cands| - 1];
      ClustersLinked(front, geo);
      ClustersNonEmpty(front, geo);
      JoinLinked(Clusters(front, geo), cands[|cands| - 1], geo);
    }
  }

  /** Every clustered suburb is a candidate. */
  lemma {:induction false} ClusteredAreCandidates(cands: seq<Suburb>, geo: Geo)
    ensures forall k, x :: 0 <= k < |Clusters(cands, geo)| && x in Clusters(cands, geo)[k] ==> x in cands
  {
    if cands != [] {
      var front := cands[..|cands| - 1];
      var before := Clusters(front, geo);
      ClusteredAreCandidates(front, geo);
      JoinMembers(before, cands[|cands| - 1], geo);
      var r := Clusters(cands, geo);
      assert r == Join(before, cands[|cands| - 1], geo);
      forall k, x | 0 <= k < |r| && x in r[k] ensures x in cands {
        if x != cands[|cands| - 1] {
          assert x in before[k];
          assert x in front;
        }
      }
    }
  }

  /** Every suburb of `xs` is in some cluster of `clusters`. */
  predicate Covers(xs: seq<Suburb>, clusters: seq<seq<Suburb>>) {
    forall x :: x in xs ==> exists k :: 0 <= k < |clusters| && x in clusters[k]
  }

  /** Every candidate is in some cluster. */
  lemma {:induction false} CandidatesClustered(cands: seq<Suburb>, geo: Geo)
    ensures Covers(cands, Clusters(cands, geo))
  {
    if cands != [] {
      var front := cands[..|cands| - 1];
      var s := cands[|cands| - 1];
      var before := Clusters(front, geo);
      CandidatesClustered(front, geo);
      JoinMembers(before, s, geo);
      var r := Join(before, s, geo);
      assert Clusters(cands, geo) == r;
      forall x | x in cands ensures exists k :: 0 <= k < |r| && x in r[k] {
        if x != s {
          assert x in front;
          var k :| 0 <= k < |before| && x in before[k];
          assert x in r[k];
        }
      }
    }
  }

  /** The members of all clusters, cluster after cluster. */
  function Flatten(clusters: seq<seq<Suburb>>): (r: seq<Suburb>)
    ensures |clusters| == 0 ==> r == []
  {
    if clusters == [] then [] else Flatten(clusters[..|clusters| - 1]) + clusters[|clusters| - 1]
  }

  /** Appending `s` to cluster `k` adds exactly one `s` to the members. */
  lemma {:induction false} FlattenGrow(clusters: seq<seq<Suburb>>, k: nat, s: Suburb)
    requires k < |clusters|
    ensures multiset(Flatten(clusters[k := clusters[k] + [s]])) == multiset(Flatten(clusters)) + multiset{s}
    decreases |clusters|
  {
    var n := |clusters|;
    var front := clusters[..n - 1];
    var grown := clusters[k := clusters[k] + [s]];
    assert Flatten(clusters) == Flatten(front) + clusters[n - 1];
    assert Flatten(grown) == Flatten(grown[..n - 1]) + grown[n - 1];
    if k < n - 1 {
      assert grown[..n - 1] == front[k := front[k] + [s]];
      assert grown[n - 1] == clusters[n - 1];
      FlattenGrow(front, k, s);
    } else {
      assert grown[..n - 1] == front;
      assert grown[n - 1] == clusters[n - 1] + [s];
    }
  }

  /** Each candidate sits in exactly one cluster: the members are the candidates, as a multiset. */
  lemma {:induction false} ClustersCount(cands: seq<Suburb>, geo: Geo)
    ensures multiset(Flatten(Clusters(cands, geo))) == multiset(cands)
  {
    if cands != [] {
      var front := cands[..|cands| - 1];
      var s := cands[|cands| - 1];
      var before := Clusters(front, geo);
      ClustersCount(front, geo);
      assert cands == front + [s];
      var k := FirstNear(before, s, geo);
      if k < |before| {
        FlattenGrow(before, k, s);
      } else {
        assert (before + [[s]])[..|before|] == before;
      }
    }
  }

  /**
   * The clusters are non-empty and single-linked, there is one exactly when there is a candidate,
   * and together they hold exactly the candidates, each candidate once.
   */
  lemma ClustersSpec(cands: seq<Suburb>, geo: Geo)
    ensures var r := Clusters(cands, geo);
      && (|r| == 0 <==> |cands| == 0)
      && SingleLinked(r, geo)
      && (forall k :: 0 <= k < |r| ==> |r[k]| > 0)
      && (forall k, x :: 0 <= k < |r| && x in r[k] ==> x in cands)
      && (forall x :: x in cands ==> exists k :: 0 <= k < |r| && x in r[k])
      && multiset(Flatten(r)) == multiset(cands)
  {
    ClustersCount(cands, geo);
    ClustersNonEmpty(cands, geo);
    ClustersLinked(cands, geo);
    ClusteredAreCandidates(cands, geo);
    CandidatesClustered(cands, geo);
  }

  /** The position of the first most populous member: the reduction replaces its running maximum only on a strictly larger population. */
  function LargestIndex(cluster: seq<Suburb>): (i: nat)
    requires |cluster| > 0
    ensures i < |cluster|
    ensures forall j :: 0 <= j < |cluster| ==> PopOrZero(cluster[j]) <= PopOrZero(cluster[i])
    ensures forall j :: 0 <= j < i ==> PopOrZero(cluster[j]) < PopOrZero(cluster[i])
  {
    if |cluster| == 1 then 0
    else
      var m := LargestIndex(cluster[..|cluster| - 1]);
      if PopOrZero(cluster[|cluster| - 1]) > PopOrZero(cluster[m]) then |cluster| - 1 else m
  }

  /** The id of the largest member of each non-empty cluster. */
  function CenterIds(clusters: seq<seq<Suburb>>): set<int> {
    if clusters == [] then {}
    else
      var c := clusters[|clusters| - 1];
      CenterIds(clusters[..|clusters| - 1]) + (if |c| > 0 then {c[LargestIndex(c)].id} else {})
  }

  /** Each non-empty cluster contributes exactly the id of its first most populous member. */
  lemma {:induction false} CenterIdsSpec(clusters: seq<seq<Suburb>>)
    ensures forall id :: id in CenterIds(clusters) <==>
      exists k :: 0 <= k < |clusters| && |clusters[k]| > 0 && clusters[k][LargestIndex(clusters[k])].id == id
  {
    if clusters != [] {
      var front := clusters[..|clusters| - 1];
      CenterIdsSpec(front);
      assert forall k :: 0 <= k < |front| ==> front[k] == clusters[k];
    }
  }

  function CommercialCenterIds(subs: seq<Suburb>, geo: Geo): set<int> {
    CenterIds(Clusters(Candidates(subs), geo))
  }

  /** One more candidate is one more join. */
  lemma ClustersStep(cands: seq<Suburb>, i: nat, geo: Geo)
    requires i < |cands|
    ensures Clusters(cands[..i + 1], geo) == Join(Clusters(cands[..i], geo), cands[i], geo)
  {
    assert cands[..i + 1][..i] == cands[..i];
  }

  /** One more cluster adds the id of its largest member, if it has one. */
  lemma CenterIdsStep(clusters: seq<seq<Suburb>>, k: nat)
    requires k < |clusters|
    ensures CenterIds(clusters[..k + 1]) ==
            CenterIds(clusters[..k]) + (if |clusters[k]| > 0 then {clusters[k][LargestIndex(clusters[k])].id} else {})
  {
    assert clusters[..k + 1][..k] == clusters[..k];
  }

  /** The inner loop of `detectCommercialCenters`: `suburb` is pushed onto the first cluster near it, or starts a new one. */
  method AddToClusters(clusters: seq<seq<Suburb>>, suburb: Suburb, geo: Geo) returns (r: seq<seq<Suburb>>)
    ensures r == Join(clusters, suburb, geo)
  {
    r := clusters;
    var addedToCluster := false;
    var j := 0;
    while j < |r|
      invariant 0 <= j <= |r| && r == clusters && !addedToCluster
      invariant forall t :: 0 <= t < j ==> !NearCluster(r[t], suburb, geo)
    {
      if AnyNear(r[j], suburb, geo) {
        r := r[j := r[j] + [suburb]];
        addedToCluster := true;
        break;
      }
      j := j + 1;
    }
    if !addedToCluster {
      r := r + [[suburb]];
    }
  }

  /** The outer loop of `detectCommercialCenters`: the candidates grouped into clusters in order. */
  method GroupClusters(candidates: seq<Suburb>, geo: Geo) returns (clusters: seq<seq<Suburb>>)
    ensures clusters == Clusters(candidates, geo)
  {
    clusters := [];
    for i := 0 to |candidates|
      invariant clusters == Clusters(candidates[..i], geo)
    {
      ClustersStep(candidates, i, geo);
      clusters := AddToClusters(clusters, candidates[i], geo);
    }
    assert candidates[..|candidates|] == candidates;
  }

  /** `detectCommercialCenters` */
  method DetectCommercialCenters(subs: seq<Suburb>, geo: Geo) returns (centers: set<int>)
    ensures centers == CommercialCenterIds(subs, geo)
  {
    var candidates := Candidates(subs);
    var clusters := GroupClusters(candidates, geo);
    centers := {};
    for k := 0 to |clusters|
      invariant centers == CenterIds(clusters[..k])
    {
      CenterIdsStep(clusters, k);
      var cluster := clusters[k];
      if |cluster| > 0 {
        var largest := cluster[LargestIndex(cluster)];
        centers := centers + {largest.id};
      }
    }
    assert clusters[..|clusters|] == clusters;
  }

  /** Every centre is the id of a suburb with population at least 2000. */
  lemma CentersAreCandidates(subs: seq<Suburb>, geo: Geo)
    ensures forall id :: id in CommercialCenterIds(subs, geo) ==>
      exists s :: s in subs && s.id == id && PopOrZero(s) >= 2000
  {
    var cands: seq<Suburb> := Candidates(subs);
    ClusteredAreCandidates(cands, geo);
    CentersFrom(Clusters(cands, geo), subs);
  }

  /** The centres of clusters of populous suburbs of `subs` are ids of populous suburbs of `subs`. */
  lemma {:induction false} CentersFrom(cs: seq<seq<Suburb>>, subs: seq<Suburb>)
    requires forall k, x :: 0 <= k < |cs| && x in cs[k] ==> x in subs && PopOrZero(x) >= 2000
    ensures forall id :: id in CenterIds(cs) ==> exists s :: s in subs && s.id == id && PopOrZero(s) >= 2000
  {
    if cs != [] {
      var front := cs[..|cs| - 1];
      var c := cs[|cs| - 1];
      assert forall k :: 0 <= k < |front| ==> front[k] == cs[k];
      CentersFrom(front, subs);
      if |c| > 0 {
        assert c[LargestIndex(c)] in c;
      }
    }
  }

  /** There is a centre exactly when some suburb has population at least 2000. */
  lemma SomeCenter(subs: seq<Suburb>, geo: Geo)
    ensures |CommercialCenterIds(subs, geo)| > 0 <==> exists s :: s in subs && PopOrZero(s) >= 2000
  {
    var cands: seq<Suburb> := Candidates(subs);
    var cs: seq<seq<Suburb>> := Clusters(cands, geo);
    ClustersNonEmpty(cands, geo);
    CenterIdsSpec(cs);
    if exists s :: s in subs && PopOrZero(s) >= 2000 {
      var s :| s in subs && PopOrZero(s) >= 2000;
      assert s in cands;
      assert cs[0][LargestIndex(cs[0])].id in CommercialCenterIds(subs, geo);
    }
    if |CommercialCenterIds(subs, geo)| > 0 {
      var id :| id in CommercialCenterIds(subs, geo);
      assert |cs| > 0;
      assert cands[0] in subs;
    }
  }

  /**
   * Every centre is the id of a candidate (population at least 2000), and there is a centre
   * exactly when there is a candidate.
   */
  lemma CommercialCentersSpec(subs: seq<Suburb>, geo: Geo)
    ensures forall id :: id in CommercialCenterIds(subs, geo) ==>
      exists s :: s in subs && s.id == id && PopOrZero(s) >= 2000
    ensures |CommercialCenterIds(subs, geo)| > 0 <==> exists s :: s in subs && PopOrZero(s) >= 2000
  {
    CentersAreCandidates(subs, geo);
    SomeCenter(subs, geo);
  }
}
