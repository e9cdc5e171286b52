/**
 * The static suburb catalogue (src/utils/static-suburbs.ts): a file of suburb records that is read
 * once and cached, and the queries over the loaded catalogue. The file system is an input to each
 * load; distances and bearings come from the given `Geo` functions.
 */
module StaticSuburbs {
  import opened Common
  import opened Sorting
  import opened Geo

  /**
   * A suburb as the selection code sees it (`SuburbWithPopulation`): the catalogue fields, the
   * distance and direction from some centre, and optional demographic data.
   */
  datatype Suburb = Suburb(
    id: int,
    name: string,
    postcode: Option<string>,
    state: string,
    latitude: real,
    longitude: real,
    distanceKm: real,
    direction: string,
    population: Option<int>,
    populationDensity: Option<real>,
    households: Option<int>,
    medianAge: Option<real>)
  {
    function Position(): Coord { Coord(latitude, longitude) }
  }

  /** One entry of `suburbs[]` in src/data/suburbs.json, as far as the loader reads it. */
  datatype FileRecord = FileRecord(
    id: int,
    name: string,
    postcode: Option<string>,
    state: string,
    latitude: real,
    longitude: real,
    distanceKm: real,
    direction: string)

  /** The state of src/data/suburbs.json when the catalogue is first loaded. */
  datatype SuburbFile =
    | Missing                               // existsSync is false
    | Unreadable                            // reading or parsing throws, or the suburb list is not an array
    | Present(records: seq<FileRecord>)

  /** The loader copies the listed fields only, and an empty postcode becomes none. */
  function FromRecord(r: FileRecord): Suburb {
    Suburb(r.id, r.name, if r.postcode == Some("") then None else r.postcode, r.state,
           r.latitude, r.longitude, r.distanceKm, r.direction, None, None, None, None)
  }

  /** The catalogue a file yields; a missing or unreadable file yields the empty catalogue. */
  function ParseFile(file: SuburbFile): seq<Suburb> {
    match file
    case Present(records) => seq(|records|, k requires 0 <= k < |records| => FromRecord(records[k]))
    case _ => []
  }

  /** What `loadSuburbs` returns given the cache before the call. */
  function Loaded(cached: Option<seq<Suburb>>, file: SuburbFile): seq<Suburb> {
    match cached
    case Some(catalogue) => catalogue
    case None => ParseFile(file)
  }

  /** The module-level `cachedSuburbs` of static-suburbs.ts and the queries that go through it. */
  class SuburbStore {
    var cached: Option<seq<Suburb>>

    constructor ()
      ensures cached == None
    {
      cached := None;
    }

    /**
     * `loadSuburbs`: the cached catalogue when there is one (an empty array is truthy, so an empty
     * catalogue stays cached too); otherwise the file's catalogue, which is cached from then on.
     */
    method LoadSuburbs(file: SuburbFile) returns (catalogue: seq<Suburb>)
      modifies this
      ensures catalogue == Loaded(old(cached), file)
      ensures cached == Some(catalogue)
      ensures old(cached).Some? ==> catalogue == old(cached).value
      ensures old(cached).None? && !file.Present? ==> catalogue == []
    {
      if cached.Some? {
        return cached.value;
      }
      match file {
        case Present(records) =>
          cached := Some(seq(|records|, k requires 0 <= k < |records| => FromRecord(records[k])));
        case _ =>
          cached := Some([]);
      }
      catalogue := cached.value;
    }

    method GetSuburbsWithinRadius(file: SuburbFile, centre: Coord, radiusKm: real, geo: Geo) returns (r: seq<Suburb>)
      modifies this
      ensures cached == Some(Loaded(old(cached), file))
      ensures r == WithinRadius(Loaded(old(cached), file), centre, radiusKm, geo)
    {
      var catalogue := LoadSuburbs(file);
      r := WithinRadius(catalogue, centre, radiusKm, geo);
    }

    method GetSuburbDetails(file: SuburbFile, suburbId: int) returns (r: Option<Suburb>)
      modifies this
      ensures cached == Some(Loaded(old(cached), file))
      ensures r == SuburbDetails(Loaded(old(cached), file), suburbId)
    {
      var catalogue := LoadSuburbs(file);
      r := SuburbDetails(catalogue, suburbId);
    }

    method GetNearbySuburbs(file: SuburbFile, at: Coord, limit: int, excludeId: Option<int>, geo: Geo)
      returns (r: seq<Suburb>)
      modifies this
      ensures cached == Some(Loaded(old(cached), file))
      ensures r == NearbySuburbs(Loaded(old(cached), file), at, limit, excludeId, geo)
    {
      var catalogue := LoadSuburbs(file);
      r := NearbySuburbs(catalogue, at, limit, excludeId, geo);
    }

    method GetSuburbsWithPopulation(file: SuburbFile, centre: Coord, radiusKm: real, geo: Geo) returns (r: seq<Suburb>)
      modifies this
      ensures cached == Some(Loaded(old(cached), file))
      ensures r == SuburbsWithPopulation(Loaded(old(cached), file), centre, radiusKm, geo)
    {
      var catalogue := LoadSuburbs(file);
      r := SuburbsWithPopulation(catalogue, centre, radiusKm, geo);
    }
  }

  /** The suburb with its distance (to a tenth of a km) and its direction measured from the given centre. */
  function Enrich(s: Suburb, centre: Coord, geo: Geo): Suburb {
    s.(distanceKm := RoundTenth(geo.km(centre, s.Position())),
       direction := DirectionLabel(geo.bearing(centre, s.Position())))
  }

  function EnrichAll(catalogue: seq<Suburb>, centre: Coord, geo: Geo): (r: seq<Suburb>)
    ensures |r| == |catalogue| && forall k :: 0 <= k < |r| ==> r[k] == Enrich(catalogue[k], centre, geo)
  {
    seq(|catalogue|, k requires 0 <= k < |catalogue| => Enrich(catalogue[k], centre, geo))
  }

  /** The entries no farther than the radius, in order. */
  function InRadius(xs: seq<Suburb>, radiusKm: real): (r: seq<Suburb>)
    ensures forall x :: x in r <==> x in xs && x.distanceKm <= radiusKm
  {
    if xs == [] then []
    else InRadius(xs[..|xs| - 1], radiusKm) + (if xs[|xs| - 1].distanceKm <= radiusKm then [xs[|xs| - 1]] else [])
  }

  /** The radius filter keeps the input order: filtering a concatenation filters each part in turn. */
  lemma {:induction false} InRadiusConcat(a: seq<Suburb>, b: seq<Suburb>, radiusKm: real)
    ensures InRadius(a + b, radiusKm) == InRadius(a, radiusKm) + InRadius(b, radiusKm)
    decreases |b|
  {
    if b == [] {
      assert a + b == a;
    } else {
      var front := b[..|b| - 1];
      var x := b[|b| - 1];
      var tail := if x.distanceKm <= radiusKm then [x] else [];
      assert (a + b)[..|a + b| - 1] == a + front;
      assert (a + b)[|a + b| - 1] == x;
      assert InRadius(a + b, radiusKm) == InRadius(a + front, radiusKm) + tail;
      assert InRadius(b, radiusKm) == InRadius(front, radiusKm) + tail;
      InRadiusConcat(a, front, radiusKm);
    }
  }

  /** A single entry is kept exactly when it lies within the radius. */
  lemma InRadiusSingle(x: Suburb, radiusKm: real)
    ensures InRadius([x], radiusKm) == if x.distanceKm <= radiusKm then [x] else []
  {
    assert [x][..0] == [];
  }

  predicate AscendingByDistance(xs: seq<Suburb>) {
    forall i, j :: 0 <= i < j < |xs| ==> xs[i].distanceKm <= xs[j].distanceKm
  }

  function DistanceKeys(xs: seq<Suburb>): (keys: seq<real>)
    ensures |keys| == |xs| && forall k :: 0 <= k < |xs| ==> keys[k] == xs[k].distanceKm
  {
    seq(|xs|, k requires 0 <= k < |xs| => xs[k].distanceKm)
  }

  /** A stable sort by ascending distance. */
  function SortByDistance(xs: seq<Suburb>): (r: seq<Suburb>)
    ensures |r| == |xs| && multiset(r) == multiset(xs)
    ensures AscendingByDistance(r)
  {
    var keys := DistanceKeys(xs);
    var order := StableOrder(keys);
    PickStableOrder(xs, keys);
    assert forall i, j :: 0 <= i < j < |order| ==> keys[order[i]] <= keys[order[j]];
    Pick(xs, order)
  }

  /**
   * The sort is stable: it reads the input along an ordering of all its positions in which
   * entries of equal distance keep their input order.
   */
  lemma SortByDistanceStable(xs: seq<Suburb>)
    ensures exists order: seq<nat> ::
      |order| == |xs| && InBounds(xs, order) && Distinct(order) &&
      SortByDistance(xs) == Pick(xs, order) &&
      forall i, j :: 0 <= i < j < |order| && xs[order[i]].distanceKm == xs[order[j]].distanceKm ==>
        order[i] < order[j]
  {
    var keys := DistanceKeys(xs);
    var order := StableOrder(keys);
    assert forall i, j :: 0 <= i < j < |order| ==> Before(keys, order[i], order[j]);
    assert SortByDistance(xs) == Pick(xs, order);
  }

  /**
   * `getSuburbsWithinRadius` over the loaded catalogue: every entry re-enriched from `centre`, kept
   * when within the radius, nearest first.
   */
  function WithinRadius(catalogue: seq<Suburb>, centre: Coord, radiusKm: real, geo: Geo): (r: seq<Suburb>)
    ensures AscendingByDistance(r)
    ensures forall x :: x in r ==> x.distanceKm <= radiusKm
    ensures forall x :: x in r <==>
      (exists k :: 0 <= k < |catalogue| && x == Enrich(catalogue[k], centre, geo)) && x.distanceKm <= radiusKm
    ensures multiset(r) == multiset(InRadius(EnrichAll(catalogue, centre, geo), radiusKm))
  {
    var within := InRadius(EnrichAll(catalogue, centre, geo), radiusKm);
    var r := SortByDistance(within);
    assert forall x :: x in r <==> x in within by {
      forall x ensures x in r <==> x in within {
        assert x in r <==> x in multiset(r);
      }
    }
    r
  }

  /** `getSuburbDetails`: the first catalogue entry with the id, or none. */
  function SuburbDetails(catalogue: seq<Suburb>, suburbId: int): (r: Option<Suburb>)
    ensures r.None? <==> forall k :: 0 <= k < |catalogue| ==> catalogue[k].id != suburbId
    ensures r.Some? ==> exists k :: 0 <= k < |catalogue| && catalogue[k] == r.value && r.value.id == suburbId &&
                                    forall j :: 0 <= j < k ==> catalogue[j].id != suburbId
  {
    if catalogue == [] then None
    else if catalogue[0].id == suburbId then Some(catalogue[0])
    else
      var r := SuburbDetails(catalogue[1..], suburbId);
      assert r.Some? ==> exists k :: 1 <= k < |catalogue| && catalogue[k] == r.value && r.value.id == suburbId &&
                                     forall j :: 0 <= j < k ==> catalogue[j].id != suburbId by {
        if r.Some? {
          var k :| 0 <= k < |catalogue[1..]| && catalogue[1..][k] == r.value && r.value.id == suburbId &&
                   forall j :: 0 <= j < k ==> catalogue[1..][j].id != suburbId;
          assert forall j :: 0 <= j < k + 1 ==> catalogue[j].id != suburbId by {
            forall j | 0 <= j < k + 1 ensures catalogue[j].id != suburbId {
              if j > 0 { assert catalogue[j] == catalogue[1..][j - 1]; }
            }
          }
        }
      }
      assert r.None? ==> forall k :: 0 <= k < |catalogue| ==> catalogue[k].id != suburbId by {
        if r.None? {
          forall k | 0 <= k < |catalogue| ensures catalogue[k].id != suburbId {
            if k > 0 { assert catalogue[k] == catalogue[1..][k - 1]; }
          }
        }
      }
      r
  }

  /** The entries whose id is not the excluded one; with no id to exclude every entry passes. */
  function Others(catalogue: seq<Suburb>, excludeId: Option<int>): (r: seq<Suburb>)
    ensures forall x :: x in r <==> x in catalogue && (excludeId.None? || x.id != excludeId.value)
  {
    if catalogue == [] then []
    else
      var last := catalogue[|catalogue| - 1];
      Others(catalogue[..|catalogue| - 1], excludeId) +
        (if excludeId.None? || last.id != excludeId.value then [last] else [])
  }

  /** Excluding an id keeps the input order: filtering a concatenation filters each part in turn. */
  lemma {:induction false} OthersConcat(a: seq<Suburb>, b: seq<Suburb>, excludeId: Option<int>)
    ensures Others(a + b, excludeId) == Others(a, excludeId) + Others(b, excludeId)
    decreases |b|
  {
    if b == [] {
      assert a + b == a;
    } else {
      var front := b[..|b| - 1];
      var x := b[|b| - 1];
      var tail := if excludeId.None? || x.id != excludeId.value then [x] else [];
      assert (a + b)[..|a + b| - 1] == a + front;
      assert (a + b)[|a + b| - 1] == x;
      assert Others(a + b, excludeId) == Others(a + front, excludeId) + tail;
      assert Others(b, excludeId) == Others(front, excludeId) + tail;
      OthersConcat(a, front, excludeId);
    }
  }

  /** A single entry is kept exactly when its id is not the excluded one. */
  lemma OthersSingle(x: Suburb, excludeId: Option<int>)
    ensures Others([x], excludeId) == if excludeId.None? || x.id != excludeId.value then [x] else []
  {
    assert [x][..0] == [];
  }

  /** Where a JavaScript slice from 0 to `limit` ends: a negative limit counts back from the end. */
  function SliceEnd(n: nat, limit: int): (e: nat)
    ensures e <= n
  {
    if limit < 0 then Max(0, n + limit) else Min(limit, n)
  }

  /**
   * `getNearbySuburbs`: the catalogue without `excludeId`, enriched from `at`, nearest first,
   * cut to `limit` entries.
   */
  function NearbySuburbs(catalogue: seq<Suburb>, at: Coord, limit: int, excludeId: Option<int>, geo: Geo)
    : (r: seq<Suburb>)
    ensures excludeId.Some? ==> forall x :: x in r ==> x.id != excludeId.value
    ensures 0 <= limit ==> |r| == Min(limit, |Others(catalogue, excludeId)|)
    ensures limit < 0 ==> |r| == Max(0, |Others(catalogue, excludeId)| + limit)
    ensures AscendingByDistance(r)
    ensures forall x :: x in r ==> exists k :: 0 <= k < |catalogue| && x == Enrich(catalogue[k], at, geo)
    ensures forall x, y :: x in r && y in EnrichAll(Others(catalogue, excludeId), at, geo) && y !in r ==>
                           x.distanceKm <= y.distanceKm
  {
    var sorted := SortByDistance(EnrichAll(Others(catalogue, excludeId), at, geo));
    NearbyPrefix(catalogue, at, limit, excludeId, geo, sorted);
    sorted[..SliceEnd(|sorted|, limit)]
  }

  /** The facts `NearbySuburbs` promises, for any distance-sorted permutation of the enriched pool. */
  lemma NearbyPrefix(catalogue: seq<Suburb>, at: Coord, limit: int, excludeId: Option<int>, geo: Geo,
                     sorted: seq<Suburb>)
    requires multiset(sorted) == multiset(EnrichAll(Others(catalogue, excludeId), at, geo))
    requires |sorted| == |Others(catalogue, excludeId)| && AscendingByDistance(sorted)
    ensures var r := sorted[..SliceEnd(|sorted|, limit)];
      && (excludeId.Some? ==> forall x :: x in r ==> x.id != excludeId.value)
      && (0 <= limit ==> |r| == Min(limit, |Others(catalogue, excludeId)|))
      && (limit < 0 ==> |r| == Max(0, |Others(catalogue, excludeId)| + limit))
      && AscendingByDistance(r)
      && (forall x :: x in r ==> exists k :: 0 <= k < |catalogue| && x == Enrich(catalogue[k], at, geo))
      && (forall x, y :: x in r && y in EnrichAll(Others(catalogue, excludeId), at, geo) && y !in r ==>
                         x.distanceKm <= y.distanceKm)
  {
    var r := sorted[..SliceEnd(|sorted|, limit)];
    assert AscendingByDistance(r);
    SortedPrefixNearest(sorted, EnrichAll(Others(catalogue, excludeId), at, geo), |r|);
    EnrichedOthers(catalogue, excludeId, at, geo, r, sorted);
  }

  /** A prefix of a distance-sorted permutation holds the nearest entries. */
  lemma SortedPrefixNearest(sorted: seq<Suburb>, xs: seq<Suburb>, e: nat)
    requires multiset(sorted) == multiset(xs) && AscendingByDistance(sorted) && e <= |sorted|
    ensures forall x, y :: x in sorted[..e] && y in xs && y !in sorted[..e] ==> x.distanceKm <= y.distanceKm
  {
    forall x, y | x in sorted[..e] && y in xs && y !in sorted[..e] ensures x.distanceKm <= y.distanceKm {
      assert y in multiset(xs);
      var i :| 0 <= i < e && sorted[..e][i] == x;
      var j :| 0 <= j < |sorted| && sorted[j] == y;
      assert forall t :: 0 <= t < e ==> sorted[t] in sorted[..e] by {
        forall t | 0 <= t < e ensures sorted[t] in sorted[..e] { assert sorted[..e][t] == sorted[t]; }
      }
    }
  }

  /** Every entry of a prefix of the sorted, enriched pool is a catalogue entry enriched from `at`. */
  lemma EnrichedOthers(catalogue: seq<Suburb>, excludeId: Option<int>, at: Coord, geo: Geo, r: seq<Suburb>, sorted: seq<Suburb>)
    requires multiset(sorted) == multiset(EnrichAll(Others(catalogue, excludeId), at, geo))
    requires |r| <= |sorted| && r == sorted[..|r|]
    ensures forall x :: x in r ==> exists k :: 0 <= k < |catalogue| && x == Enrich(catalogue[k], at, geo)
    ensures excludeId.Some? ==> forall x :: x in r ==> x.id != excludeId.value
  {
    var pool := Others(catalogue, excludeId);
    var enriched := EnrichAll(pool, at, geo);
    forall x | x in r
      ensures (exists k :: 0 <= k < |catalogue| && x == Enrich(catalogue[k], at, geo)) &&
              (excludeId.Some? ==> x.id != excludeId.value)
    {
      assert x in multiset(sorted);
      assert x in enriched;
      var i :| 0 <= i < |pool| && x == enriched[i];
      assert pool[i] in catalogue;
      var k :| 0 <= k < |catalogue| && catalogue[k] == pool[i];
    }
  }

  /** Clears the demographic fields of an entry. */
  function WithoutDemographics(s: Suburb): Suburb {
    s.(population := None, populationDensity := None, households := None, medianAge := None)
  }

  /**
   * `getSuburbsWithPopulation` of the static module: the radius query with every demographic field
   * set to undefined, in the same order.
   */
  function SuburbsWithPopulation(catalogue: seq<Suburb>, centre: Coord, radiusKm: real, geo: Geo)
    : (r: seq<Suburb>)
    ensures |r| == |WithinRadius(catalogue, centre, radiusKm, geo)|
    ensures forall k :: 0 <= k < |r| ==> r[k] == WithoutDemographics(WithinRadius(catalogue, centre, radiusKm, geo)[k])
    ensures forall x :: x in r ==> x.population.None? && x.populationDensity.None? &&
                                   x.households.None? && x.medianAge.None?
    ensures forall x :: x in r ==> x.distanceKm <= radiusKm
  {
    var within := WithinRadius(catalogue, centre, radiusKm, geo);
    seq(|within|, k requires 0 <= k < |within| => WithoutDemographics(within[k]))
  }

  /** `geocodeAddress`: the static data source cannot geocode, so every request fails. */
  function GeocodeAddress(address: string): (r: Option<Coord>)
    ensures r.None?
  {
    None
  }
}
