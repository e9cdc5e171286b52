# Footer suburb selection and the static suburb catalogue

A Dafny model of the footer-link engine of an Astro local-business site package. It has two parts.

- `src/utils/footer-locations.ts` picks up to 11 suburbs for the footer.
  - It scores every suburb: population percentile, regional-centre bonus, commercial-centre
    bonus from greedy 5 km clustering, mean + ½·σ outlier bonus, and a density bonus.
  - It splits the suburbs into four distance rings (inner, middle, outer, satellite) at the
    first three gaps of more than 2 km.
  - It fills per-ring quotas in score order, then fills the remaining slots from the global
    score order.
  - `getFooterLocations` either keeps a manual list and tops it up, or runs the smart selection
    on every suburb in the service radius.
  - `getCachedFooterLocations` computes the links once.
- `src/utils/static-suburbs.ts` is a catalogue read once from `suburbs.json` and cached. It
  answers these queries:
  - a radius query, sorted by distance;
  - the k nearest suburbs, with an optional excluded id;
  - a lookup by id;
  - a radius query with the demographic fields cleared;
  - a geocoder that always fails.

Modules, one file each:

| file | module | models |
|---|---|---|
| `common.dfy` | `Common` | Option, `Take` (`slice(0, n)`), `Pick`, `Keep`/`Without` (filters on positions) |
| `sorting.dfy` | `Sorting` | the stable `Array.prototype.sort` as an insertion sort of positions, sorted by (key, position) |
| `geo.dfy` | `Geo` | the distance/bearing oracle, `Math.round`, `Math.round(d * 10) / 10`, the JS `%`, the 8-way direction label |
| `static_suburbs.dfy` | `StaticSuburbs` | the `Suburb` record, the file states, the `SuburbStore` class with the `cachedSuburbs` field, the catalogue queries |
| `significance.dfy` | `Significance` | `calculatePopulationPercentile`, `isRegionalCenter`, `findSignificantSuburbs` |
| `commercial.dfy` | `Commercial` | `detectCommercialCenters`, including its nested loops |
| `rings.dfy` | `Rings` | `analyzeDistanceRings`, including its gap loop and placement loop |
| `selection.dfy` | `Selection` | the scoring loop, the score sort, the quotas, the two selection passes, `smartSelectLocations` |
| `footer.dfy` | `Footer` | `getFooterLocations`, and the `FooterCache` class for `getCachedFooterLocations` |

Modelling choices:

- **Oracles.**
  - Distances are reals in km. The haversine formula is an oracle `geo.km`, and the `atan2`
    bearing in degrees is an oracle `geo.bearing` with values in [−180, 180].
  - Everything done with their results is modelled exactly: rounding to a tenth, the JS `%`,
    `Math.round(x / 45) % 8`.
  - `getCenterLocation`, `getSuburbsByName`, `generateLocationSlug` and `generateLocationUrl`
    come from modules outside this model. They are fields of `Footer.Externals`, and a lookup
    that throws is `None`.
- **Square root.** The outlier test `p > mean + 0.5·sqrt(variance)` is stated without a square
  root, as `p > mean ∧ (p − mean)² > variance / 4`. `Significance.ThresholdWithoutSqrt` proves
  the two equal for every square root.
- **Object identity.** `smartSelectLocations` compares suburbs by reference (`includes`) and
  sorts copies of the list. The selection therefore works on positions of the input list, as
  in the source: equal suburb records at two positions stay two candidates.
- **Mutable state.** `cachedSuburbs` and `cachedFooterLocations` are fields of the classes
  `StaticSuburbs.SuburbStore` and `Footer.FooterCache`.
  - The methods with loops are imperative Dafny: clustering, gap scan, ring placement,
    scoring, the pushes of each pass.
  - Each such method is proved equal to a function of its inputs. The properties are lemmas
    about that function.
- **Static mode.** `Footer.FooterLocations` is the footer over the static catalogue.
  `Footer.FooterFor` is the same logic over whatever the radius query returned. The lemmas are
  stated over `FooterFor`, so they also hold when the database module answers the radius query.

Behaviour of the code that the model keeps:

- **Manual suburbs.** The configured names go to `getSuburbsByName` as they are. The suburbs
  it returns are re-measured from the centre. Those outside the service radius are dropped
  (`footer-locations.ts:394`).
- **`loadSuburbs`.** It copies only id, name, postcode, state, position, distance and direction
  from the file (`static-suburbs.ts:29-38`). Every demographic field of a loaded suburb is
  therefore absent. `getSuburbsWithPopulation` clears them again.
- **No `getSuburbsByName` in static mode.** The static module does not export it
  (`footer-locations.ts:21`). In static mode a manual list therefore makes the call throw, and
  `getFooterLocations` returns `[]`. An `Externals.suburbsByName` that always returns `None`
  models this.
- **Missing gaps.** A ring boundary taken from a gap of exactly 0 counts as missing, so the
  default applies (`footer-locations.ts:227-229`).
- **Outer clamp.** The outer ring boundary falls back to 35 when the third gap is above 40
  (`footer-locations.ts:234`).
- **Empty cache.** `getCachedFooterLocations` keeps an empty list once it has one. A later call
  does not recompute it.

## Model

| member | source | states |
|---|---|---|
| Geo.RoundTenth | src/utils/static-suburbs.ts:103 | `Math.round(d * 10) / 10` is a multiple of 0.1 within 0.05 of `d`, and non-negative for non-negative `d` |
| Geo.JsRound | src/utils/static-suburbs.ts:64 | `Math.round` returns the integer in `(x − ½, x + ½]` |
| Geo.Normalize | src/utils/static-suburbs.ts:61 | `(angle + 360) % 360` of an angle in [−180, 180] lies in [0, 360) and adds 360 exactly to negative angles |
| Geo.DirectionIndex | src/utils/static-suburbs.ts:64 | `Math.round(normalized / 45) % 8` is an index in 0..7 |
| Geo.DirectionLabel | src/utils/static-suburbs.ts:56-67 | the label is one of N, NE, E, SE, S, SW, W, NW, and due north is "N" |
| Geo.DirectionSectors | src/utils/footer-locations.ts:62-68 | the index is `k` exactly when the normalised angle lies in the 45° sector centred on `45·k` (the last half-sector above 337.5° wraps to N) |
| StaticSuburbs.SuburbStore.constructor | src/utils/static-suburbs.ts:11 | the cache starts empty |
| StaticSuburbs.SuburbStore.LoadSuburbs | src/utils/static-suburbs.ts:16-51 | once cached, every later call returns the cached catalogue; otherwise the file is parsed, and a missing or unreadable file gives and caches `[]` |
| StaticSuburbs.FromRecord | src/utils/static-suburbs.ts:29-38 | the loader's copy of one file record: the listed fields, an empty postcode as none, every demographic field absent |
| StaticSuburbs.ParseFile | src/utils/static-suburbs.ts:21-50 | a present file gives one suburb per record in file order; a missing or unreadable file gives no suburbs |
| StaticSuburbs.Loaded | src/utils/static-suburbs.ts:16-51 | what `loadSuburbs` returns: the cached catalogue when there is one, otherwise the parsed file |
| StaticSuburbs.Enrich | src/utils/static-suburbs.ts:97-105 | the same suburb with its distance, rounded to a tenth, and its direction measured from the centre |
| StaticSuburbs.EnrichAll | src/utils/static-suburbs.ts:97-106 | entry by entry, the catalogue with distance and direction recomputed from the centre |
| StaticSuburbs.InRadius | src/utils/footer-locations.ts:394 | keeps exactly the entries whose distance is at most the radius; order and multiplicity are fixed by InRadiusConcat and InRadiusSingle |
| StaticSuburbs.InRadiusConcat | src/utils/footer-locations.ts:394 | the filter keeps input order: filtering a concatenation filters each part in turn |
| StaticSuburbs.InRadiusSingle | src/utils/footer-locations.ts:394 | a single entry is kept, once, exactly when it lies within the radius |
| StaticSuburbs.SortByDistance | src/utils/static-suburbs.ts:108 | a permutation of its input, ascending by distance |
| StaticSuburbs.SortByDistanceStable | src/utils/static-suburbs.ts:108 | the sort is stable: it reads the input along an ordering of all its positions in which entries of equal distance keep their input order |
| StaticSuburbs.WithinRadius | src/utils/static-suburbs.ts:88-109 | ascending by distance; it holds exactly the re-measured catalogue entries within the radius, each as often as the filter keeps it |
| StaticSuburbs.SuburbStore.GetSuburbsWithinRadius | src/utils/static-suburbs.ts:88-109 | loads the catalogue through the cache and returns `WithinRadius` of it |
| StaticSuburbs.SuburbDetails | src/utils/static-suburbs.ts:114-117 | `None` exactly when no entry has the id; otherwise the first entry with the id |
| StaticSuburbs.SuburbStore.GetSuburbDetails | src/utils/static-suburbs.ts:114-117 | loads the catalogue through the cache and returns `SuburbDetails` of it |
| StaticSuburbs.Others | src/utils/static-suburbs.ts:132 | keeps exactly the entries whose id is not the excluded one; order and multiplicity are fixed by OthersConcat and OthersSingle |
| StaticSuburbs.OthersConcat | src/utils/static-suburbs.ts:132 | the filter keeps input order: filtering a concatenation filters each part in turn |
| StaticSuburbs.OthersSingle | src/utils/static-suburbs.ts:132 | a single entry is kept, once, exactly when its id is not the excluded one |
| StaticSuburbs.NearbySuburbs | src/utils/static-suburbs.ts:122-146 | never returns the excluded id; `min(limit, n)` entries for `limit ≥ 0` and `max(0, n + limit)` for a negative limit (JS `slice`); ascending by distance; each one a re-measured catalogue entry; none farther than a candidate it leaves out |
| StaticSuburbs.SortedPrefixNearest | src/utils/static-suburbs.ts:143-145 | a prefix of a distance-sorted permutation holds nearest elements: none is farther than an element left out |
| StaticSuburbs.SuburbStore.GetNearbySuburbs | src/utils/static-suburbs.ts:122-146 | loads the catalogue through the cache and returns `NearbySuburbs` of it |
| StaticSuburbs.SuburbsWithPopulation | src/utils/static-suburbs.ts:160-176 | the radius query entry by entry in the same order, with population, density, households and median age absent |
| StaticSuburbs.SuburbStore.GetSuburbsWithPopulation | src/utils/static-suburbs.ts:160-176 | loads the catalogue through the cache and returns `SuburbsWithPopulation` of it |
| StaticSuburbs.GeocodeAddress | src/utils/static-suburbs.ts:188-191 | always fails |
| Significance.Positives | src/utils/footer-locations.ts:84-86 | every retained population is positive and every positive population of the list is retained; order and multiplicity are fixed by PositivesConcat and PositivesSingle |
| Significance.PositivesConcat | src/utils/footer-locations.ts:84-86 | the positive populations of a concatenation are those of each part in turn |
| Significance.PositivesSingle | src/utils/footer-locations.ts:84-86 | a single suburb contributes its population, once, exactly when it is positive |
| Significance.SortAscending | src/utils/footer-locations.ts:87 | an ascending permutation of the populations |
| Significance.FirstAtLeast | src/utils/footer-locations.ts:91 | `findIndex`: the first position holding a value at least `v`, or −1 exactly when there is none |
| Significance.PopulationPercentile | src/utils/footer-locations.ts:80-93 | 0 when the suburb has no (or zero) population or the list has no positive population; always in [−1, 1); in [0, 1) for a suburb of the list |
| Significance.PercentileIsRank | src/utils/footer-locations.ts:80-93 | for a populated suburb of the list the percentile is the share of positive populations strictly below its own |
| Significance.CountBelowPermutation | src/utils/footer-locations.ts:87 | the number of values below `v` does not depend on the order, so sorting does not change the rank |
| Significance.CountBelowSorted | src/utils/footer-locations.ts:91-92 | in an ascending list, the position of the first value at least `v` is the number of values below `v` |
| Significance.Neighbours | src/utils/footer-locations.ts:105-112 | exactly the other-id suburbs of the list within 10 km; order and multiplicity are fixed by NeighboursConcat and NeighboursSingle |
| Significance.NeighboursConcat | src/utils/footer-locations.ts:105-112 | the filter keeps input order: the neighbours in a concatenation are those of each part in turn |
| Significance.NeighboursSingle | src/utils/footer-locations.ts:105-112 | a single suburb is a neighbour, once, exactly when it has another id and lies closer than 10 km |
| Significance.IsRegionalCenter | src/utils/footer-locations.ts:98-119 | `isRegionalCenter`: false when unpopulated or below 1000, true without neighbours, otherwise more than 1.5 times the neighbours' mean population; its closed form is `RegionalCenterSpec` |
| Significance.RegionalCenterSpec | src/utils/footer-locations.ts:98-119 | a regional centre has population at least 1000 and either no neighbour or more than 1.5 times the neighbours' mean population, stated without division |
| Significance.MeanComparisonInt | src/utils/footer-locations.ts:117-118 | `v > sum / n · 1.5` holds exactly when `2·v·n > 3·sum` |
| Significance.Variance | src/utils/footer-locations.ts:133 | the population variance is non-negative |
| Significance.ThresholdWithoutSqrt | src/utils/footer-locations.ts:134-141 | the square-free test equals `p > mean + 0.5·σ` for the square root σ of the variance |
| Significance.AboveThreshold | src/utils/footer-locations.ts:134-141 | the outlier test `p > mean + ½σ` without the square root, equal to it by `ThresholdWithoutSqrt` |
| Significance.Significant | src/utils/footer-locations.ts:125-141 | a suburb is an outlier when it is populated and above the threshold of the positive populations |
| Significance.SignificantIds | src/utils/footer-locations.ts:124-144 | empty when no population is positive; an id is in the set exactly when a suburb of the list with that id is a populated upper outlier |
| Significance.SignificantUpwardClosed | src/utils/footer-locations.ts:141 | a suburb at least as populous as an outlier is an outlier |
| Significance.EqualPopulationsNoOutliers | src/utils/footer-locations.ts:132-141 | when every suburb has the same population there is no outlier |
| Commercial.Candidates | src/utils/footer-locations.ts:153 | exactly the suburbs with population at least 2000 |
| Commercial.CandidatesConcat | src/utils/footer-locations.ts:153 | the filter keeps input order: the candidates of a concatenation are the candidates of each part in turn |
| Commercial.CandidatesSingle | src/utils/footer-locations.ts:153 | a single suburb is kept exactly when its population is at least 2000 |
| Commercial.AnyNear | src/utils/footer-locations.ts:163-169 | true exactly when some member of the cluster is closer than 5 km |
| Commercial.FirstNear | src/utils/footer-locations.ts:162-176 | the first cluster near the suburb: none before it is near, and it is near unless it is past the end |
| Commercial.JoinLinked | src/utils/footer-locations.ts:158-181 | one outer step keeps the clusters non-empty and single-linked: the new suburb joins a cluster only when it is within 5 km of a member |
| Commercial.JoinMembers | src/utils/footer-locations.ts:158-181 | one outer step keeps every earlier member in its cluster, places the new suburb in some cluster, and adds nothing else |
| Commercial.Join | src/utils/footer-locations.ts:159-180 | one outer step: the suburb goes to the first near cluster or opens a new one, so the number of clusters grows by at most one |
| Commercial.Clusters | src/utils/footer-locations.ts:156-181 | the clusters after the outer loop, never more than the candidates; the fold of `Join` over the candidates, whose properties `ClustersSpec` states |
| Commercial.ClustersSpec | src/utils/footer-locations.ts:155-181 | the clusters are non-empty and single-linked (every later member is within 5 km of an earlier one); there are none exactly when there is no candidate; every candidate is in some cluster and every member is a candidate; the members of all clusters are the candidates as a multiset, so each candidate sits in exactly one cluster |
| Commercial.ClustersCount | src/utils/footer-locations.ts:158-181 | each candidate is placed once (the `break`): the members of all clusters equal the candidates as a multiset |
| Commercial.LargestIndex | src/utils/footer-locations.ts:186-188 | the `reduce` with strict `>` picks a most populous member, and no earlier member is as populous |
| Commercial.CenterIdsSpec | src/utils/footer-locations.ts:184-191 | an id is a centre exactly when it is the id of the first most populous member of some non-empty cluster |
| Commercial.CommercialCenterIds | src/utils/footer-locations.ts:149-194 | the centres of the clusters of the candidates; `CenterIdsSpec` states that an id is a centre exactly when it is the first most populous member of a cluster, and `CommercialCentersSpec` states its relation to the input |
| Commercial.AddToClusters | src/utils/footer-locations.ts:159-180 | the inner loop with its `break` performs one `Join` |
| Commercial.GroupClusters | src/utils/footer-locations.ts:156-181 | the outer loop builds `Clusters` of the candidates |
| Commercial.DetectCommercialCenters | src/utils/footer-locations.ts:149-194 | the method returns `CommercialCenterIds` of its input |
| Commercial.CommercialCentersSpec | src/utils/footer-locations.ts:149-194 | every centre is the id of a suburb with population at least 2000; there is a centre exactly when such a suburb exists |
| Sorting.StableOrder | src/utils/footer-locations.ts:204 | an arrangement of every position exactly once, ascending by key, ties in input order |
| Sorting.PickStableOrder | src/utils/footer-locations.ts:324 | the sorted list is a permutation of the input |
| Rings.GapsAreJumps | src/utils/footer-locations.ts:219-224 | every recorded gap is the distance at a jump of more than 2 km from the previous suburb |
| Rings.JumpsRecorded | src/utils/footer-locations.ts:219-224 | every distance more than 2 km beyond the previous sorted distance is recorded as a gap |
| Rings.GapsIncrease | src/utils/footer-locations.ts:219-224 | over sorted non-negative distances the gaps exceed 2 and each exceeds the previous one by more than 2 |
| Rings.NoJumpsNoGaps | src/utils/footer-locations.ts:219-224 | with no jump over 2 km there is no gap |
| Rings.Gaps | src/utils/footer-locations.ts:216-224 | the gap loop: never more gaps than distances; `GapsAreJumps` and `JumpsRecorded` state that the recorded breaks are exactly the jumps of more than 2 km, and `GapsIncrease` that on sorted input they are in increasing order, which determines the sequence |
| Rings.GapOr | src/utils/footer-locations.ts:227-229 | a missing or zero gap gives the default boundary |
| Rings.RingBounds | src/utils/footer-locations.ts:227-234 | each boundary is its gap when the gap is present, non-zero and at most 15/25/40; a missing or zero gap gives 10/20/30, and a gap over the limit gives 10/20/35 |
| Rings.RingOf | src/utils/footer-locations.ts:238-247 | a distance belongs to the first ring whose boundary it does not exceed, and to the satellite ring past the outer boundary |
| Rings.Assign | src/utils/footer-locations.ts:237-248 | one ring's positions in visiting order, all valid and no more than visited; `AssignMembers` states which positions it holds and `AssignSorted` that it keeps a sorted order sorted |
| Rings.AssignMembers | src/utils/footer-locations.ts:237-248 | a ring holds exactly the positions whose distance falls in its band |
| Rings.PlaceInRings | src/utils/footer-locations.ts:237-248 | the placement loop pushes each sorted position onto the ring of its band |
| Rings.AnalyzeDistanceRings | src/utils/footer-locations.ts:199-251 | the method returns `DistanceRingsOf` of its input |
| Rings.RingsPartition | src/utils/footer-locations.ts:199-251 | every input suburb is in exactly the ring its distance selects, and in no other |
| Rings.RingsOrdered | src/utils/footer-locations.ts:199-248 | each ring holds distinct positions, ascending by distance, ties in input order, and the ring sizes add up to the input size |
| Rings.BoundsIncrease | src/utils/footer-locations.ts:227-234 | for non-negative distances inner < middle < outer |
| Rings.DefaultBounds | src/utils/footer-locations.ts:227-229 | with no jump over 2 km the boundaries are 10, 20 and 30 |
| Selection.PercentilePoints | src/utils/footer-locations.ts:293-297 | a percentile in [0, 1) earns 0 to 100 points |
| Selection.Score | src/utils/footer-locations.ts:284-321 | an unpopulated suburb scores exactly −1000; a populated suburb of the list scores from 0 to 190 |
| Selection.ScoreSuburb | src/utils/footer-locations.ts:285-320 | the branching score of one suburb is its `Score` |
| Selection.ScoreSuburbs | src/utils/footer-locations.ts:284-321 | the scoring loop gives each suburb its `Score` |
| Selection.PopulatedFirst | src/utils/footer-locations.ts:324 | after the stable descending sort every populated suburb precedes every unpopulated one |
| Selection.ScoreOrder | src/utils/footer-locations.ts:284-324 | the input positions after the descending stable sort by score; `ScoreOrderSpec` and `PopulatedFirst` state its properties |
| Selection.Quota | src/utils/footer-locations.ts:328-333 | the per-ring quotas, with minimums 2, 3 and 3 and none for the satellite ring |
| Selection.Push | src/utils/footer-locations.ts:342-345 | one push: nothing once `count` are selected or the suburb is already selected, otherwise it is appended |
| Selection.Fill | src/utils/footer-locations.ts:341-346 | the pushes of one pass; over distinct candidates `FillExact` gives it exactly, and `FillSpec` states its properties |
| Selection.FirstPass | src/utils/footer-locations.ts:336-347 | the first pass after the first `t` rings: each ring's picks filled in table order (each step given exactly by `FillExact`); properties stated by `FirstPassSpec` and `FirstPassQuota` |
| Selection.SecondPass | src/utils/footer-locations.ts:350-357 | the second pass runs only when fewer than `count` are selected (its pushes given exactly by `FillExact`); properties stated by `SecondPassSpec` |
| Selection.Passes | src/utils/footer-locations.ts:335-359 | both passes and the final slice; properties stated by `PassesSpec` |
| Selection.FillSpec | src/utils/footer-locations.ts:341-346 | a push pass keeps what was selected as a prefix, adds no duplicate, keeps within `count`, adds only offered positions, and takes every offered position unless `count` is reached |
| Selection.FillExact | src/utils/footer-locations.ts:341-346 | over distinct candidates, a pass appends exactly the candidates not yet selected, in their order, until `count` are selected |
| Selection.FirstPassSpec | src/utils/footer-locations.ts:336-347 | the first pass selects at most `count` distinct positions, all from the score order |
| Selection.FirstPassQuota | src/utils/footer-locations.ts:328-347 | the first pass takes at most `max(2,⌊c/4⌋)`, `max(3,⌊0.35c⌋)`, `max(3,⌊0.3c⌋)` and `⌊0.1c⌋` suburbs of the inner, middle, outer and satellite rings |
| Selection.SecondPassSpec | src/utils/footer-locations.ts:350-357 | starting from at most `count` distinct positions, the second pass ends with `min(count, n)` distinct positions |
| Selection.PassesSpec | src/utils/footer-locations.ts:335-359 | over any arrangement of all n positions, the two passes and the `slice` select `min(count, n)` distinct positions within the input |
| Selection.SelectionIndices | src/utils/footer-locations.ts:256-369 | the selected positions are distinct, within the input, and exactly `min(count, n)` of them |
| Selection.SelectWithQuotas | src/utils/footer-locations.ts:327-359 | the first pass over the four rings, the guarded second pass and the final `slice` compute `Passes` of the score order |
| Selection.SelectFrom | src/utils/footer-locations.ts:341-346 | one push loop with its early exit at `count` computes `Fill` |
| Selection.SmartSelection | src/utils/footer-locations.ts:256-369 | `min(count, n)` suburbs (none for an empty input), each from the input, without duplicates when the input has none |
| Selection.SmartSelectLocations | src/utils/footer-locations.ts:256-369 | the method returns `SmartSelection` of its input |
| Footer.Entries | src/utils/footer-locations.ts:412-416 | one link per suburb, in order, with its slug and URL |
| Footer.WithoutIdsOf | src/utils/footer-locations.ts:405 | exactly the suburbs whose id is not among the manual ones; order and multiplicity are fixed by WithoutIdsOfConcat and WithoutIdsOfSingle |
| Footer.WithoutIdsOfConcat | src/utils/footer-locations.ts:405 | the filter keeps input order: filtering a concatenation filters each part in turn |
| Footer.WithoutIdsOfSingle | src/utils/footer-locations.ts:405 | a single suburb is kept, once, exactly when no manual suburb has its id |
| Footer.ValidManual | src/utils/footer-locations.ts:389-394 | the looked-up manual suburbs, re-measured from the centre, within the service radius, in lookup order |
| Footer.TopUp | src/utils/footer-locations.ts:400-410 | a list shorter than 11 is followed by a smart selection of the other-id radius suburbs; properties stated by `TopUpSpec` (which suburbs are picked is `SmartSelection`'s choice) |
| Footer.FooterFor | src/utils/footer-locations.ts:382-436 | the footer once the centre and the radius query are known; `ManualPath` and `AutomaticEquation` give each path as an equation, and `ManualFirst`, `AutomaticPath` and `FooterAtMostEleven` state its properties |
| Footer.FooterLocations | src/utils/footer-locations.ts:374-441 | the footer over the static catalogue: no links without a centre, otherwise `FooterFor` of the radius query |
| Footer.GetFooterLocations | src/utils/footer-locations.ts:374-441 | returns `FooterLocations` of the catalogue; the catalogue is loaded (and cached) exactly when the centre is known and the manual path needs a top-up or there is no manual list |
| Footer.FooterErrors | src/utils/footer-locations.ts:374-440 | a failed centre lookup or a failed name lookup gives no links |
| Footer.FooterAtMostEleven | src/utils/footer-locations.ts:402-436 | never more than 11 links |
| Footer.ManualFirst | src/utils/footer-locations.ts:382-417 | the in-radius manual suburbs come first in lookup order; the rest are radius-query suburbs with ids not among them; there are `min(11, manual + others)` links |
| Footer.TopUpSpec | src/utils/footer-locations.ts:401-412 | the top-up keeps the manual list as a prefix and adds only other-id suburbs of the radius query, up to 11 in all |
| Footer.AutomaticPath | src/utils/footer-locations.ts:419-436 | without a manual list, an empty radius query gives no links, and otherwise `min(11, n)` links to suburbs of the query |
| Footer.FooterCache.constructor | src/utils/footer-locations.ts:446 | the cache starts empty |
| Footer.FooterCache.GetCachedFooterLocations | src/utils/footer-locations.ts:448-453 | the first call computes, caches and returns the links; every later call returns the cached links and reads nothing |

## Left out

- Haversine distance and `atan2` bearing (`static-suburbs.ts:72-83`,
  `footer-locations.ts:34-47`, `63-65`): floating-point trigonometry. They are the oracles
  `geo.km` and `geo.bearing`. The same oracles serve both modules. The static module's use of
  raw degree differences in `calculateDirection` gives the same angle, since `atan2` does not
  depend on scale.
- Floating point in general: arithmetic is exact over `real`. A not-a-number distance and the
  `|| 0` of `distanceKm` in the ring code are therefore not modelled. Every distance is a
  number.
- Selection.Quota: uses the exact `⌊c·k/100⌋`, not `Math.floor(c * 0.35)` over doubles. The two
  first differ at `count = 180`, far above the 11 the footer asks for.
- File system and JSON (`static-suburbs.ts:21-45`): the file is the input `SuburbFile`, which
  is `Missing`, `Unreadable` (read or parse fails) or `Present` (the parsed records).
- `./locations`, `./location-builder` and `../config/site` are not part of this model.
  `getCenterLocation`, `getSuburbsByName`, `generateLocationSlug`, `generateLocationUrl` and
  `siteConfig` are parameters.
- The static-versus-database module switch (`footer-locations.ts:14-21`) is left out. The
  database answer to the radius query is the abstract `all` of `Footer.FooterFor`.
- Console logging and the async wrappers: the code is sequential; only its values are modelled.
- The `centerCoords` argument of `smartSelectLocations` and the centre fallback
  (`footer-locations.ts:265-274`): the resulting centre reaches only `analyzeDistanceRings`,
  which never reads it, and the footer always passes a centre.
- Idempotence of `getCachedFooterLocations` under concurrent first calls: two awaits that
  interleave may both compute. The model runs calls one after another.
- `testConnection` and `closePool` (`static-suburbs.ts:151-155`, `181-183`): no value beyond
  the cache load `LoadSuburbs` already covers.
- Selection.SmartSelectLocations: `count` is a natural number. A negative or fractional
  `count` is not modelled.
- Default arguments: `getNearbySuburbs`'s `limit = 10` (`static-suburbs.ts:125`) and
  `smartSelectLocations`'s `count = 11` (`footer-locations.ts:258`). Every call in the model passes
  them explicitly, and the footer always passes 11.
- Other throwing calls under the catch of `getFooterLocations` (`footer-locations.ts:437-440`):
  `generateLocationSlug`, `generateLocationUrl` and the `siteConfig` reads are total here
  (`Externals.slug`, `Externals.url`, the fields of `SiteConfig`). Only a failed centre lookup or
  a failed name lookup gives `[]`.
- The contents of the scripts, the config loader, the component registry and the type
  declarations lie outside this core.
