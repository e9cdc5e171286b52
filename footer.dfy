/**
 * `getFooterLocations` and `getCachedFooterLocations` (src/utils/footer-locations.ts:374-453):
 * a manual list of suburbs, kept to the service radius and topped up by the smart selection, or
 * the smart selection alone, turned into footer links and cached for the rest of the build.
 *
 * The catalogue is the static one (`SuburbStore`). The centre lookup, the lookup by name and the
 * slug and URL builders live in modules this model does not contain and are given as functions;
 * a lookup that throws is `None`.
 */
module Footer {
  import opened Common
  import opened Geo
  import opened StaticSuburbs
  import opened Selection

  /** `FooterLocationData` */
  datatype FooterEntry = FooterEntry(suburb: Suburb, slug: string, url: string)

  /** The part of `siteConfig.locationPages` the footer reads. */
  datatype SiteConfig = SiteConfig(serviceRadiusKm: real, footerFeaturedSuburbs: Option<seq<string>>)

  /**
   * `getCenterLocation` (`None` when it throws), `getSuburbsByName` (`None` when it throws; with
   * the static catalogue it is undefined, so calling it always throws), `generateLocationSlug`
   * and `generateLocationUrl`.
   */
  datatype Externals = Externals(
    center: Option<Coord>,
    suburbsByName: seq<string> -> Option<seq<Suburb>>,
    slug: Suburb -> string,
    url: Suburb -> string)

  /** The number of footer links. */
  const FooterSize: nat := 11

  /** A manual footer list is configured and not empty. */
  predicate Manual(config: SiteConfig) {
    config.footerFeaturedSuburbs.Some? && |config.footerFeaturedSuburbs.value| > 0
  }

  /** One link per suburb, in order, carrying the suburb, its slug and its URL. */
  function Entries(subs: seq<Suburb>, ext: Externals): (r: seq<FooterEntry>)
    ensures |r| == |subs|
    ensures forall k :: 0 <= k < |subs| ==> r[k] == FooterEntry(subs[k], ext.slug(subs[k]), ext.url(subs[k]))
  {
    seq(|subs|, k requires 0 <= k < |subs| => FooterEntry(subs[k], ext.slug(subs[k]), ext.url(subs[k])))
  }

  /** No suburb of `valid` has the id of `x`. */
  predicate NewId(x: Suburb, valid: seq<Suburb>) {
    forall v :: v in valid ==> v.id != x.id
  }

  /** The suburbs of `all` whose id is not the id of any suburb of `valid`, in order. */
  function WithoutIdsOf(all: seq<Suburb>, valid: seq<Suburb>): (r: seq<Suburb>)
    ensures forall x :: x in r <==> x in all && forall v :: v in valid ==> v.id != x.id
  {
    if all == [] then []
    else
      var x := all[|all| - 1];
      WithoutIdsOf(all[..|all| - 1], valid) + (if NewId(x, valid) then [x] else [])
  }

  /** Dropping the manual ids keeps the input order: filtering a concatenation filters each part in turn. */
  lemma {:induction false} WithoutIdsOfConcat(a: seq<Suburb>, b: seq<Suburb>, valid: seq<Suburb>)
    ensures WithoutIdsOf(a + b, valid) == WithoutIdsOf(a, valid) + WithoutIdsOf(b, valid)
    decreases |b|
  {
    if b == [] {
      assert a + b == a;
    } else {
      var front := b[..|b| - 1];
      var x := b[|b| - 1];
      var tail := if NewId(x, valid) then [x] else [];
      assert (a + b)[..|a + b| - 1] == a + front;
      assert (a + b)[|a + b| - 1] == x;
      assert WithoutIdsOf(a + b, valid) == WithoutIdsOf(a + front, valid) + tail;
      assert WithoutIdsOf(b, valid) == WithoutIdsOf(front, valid) + tail;
      WithoutIdsOfConcat(a, front, valid);
    }
  }

  /** A single suburb is kept exactly when no manual suburb has its id. */
  lemma WithoutIdsOfSingle(x: Suburb, valid: seq<Suburb>)
    ensures WithoutIdsOf([x], valid) == if forall v :: v in valid ==> v.id != x.id then [x] else []
  {
    assert [x][..0] == [];
  }

  /** The manual suburbs found by name, measured from the centre and kept to the service radius. */
  function ValidManual(found: seq<Suburb>, center: Coord, config: SiteConfig, geo: Geo): seq<Suburb> {
    InRadius(EnrichAll(found, center, geo), config.serviceRadiusKm)
  }

  /** The manual list followed, while it is short of 11, by a smart selection of the other suburbs of `all`. */
  function TopUp(valid: seq<Suburb>, all: seq<Suburb>, geo: Geo): seq<Suburb> {
    if |valid| < FooterSize then valid + SmartSelection(WithoutIdsOf(all, valid), FooterSize - |valid|, geo)
    else valid
  }

  /**
   * What `getFooterLocations` returns once the centre is known, where `all` is what the radius
   * query returns (it is read only when it is needed).
   */
  function FooterFor(center: Coord, all: seq<Suburb>, config: SiteConfig, ext: Externals, geo: Geo): seq<FooterEntry> {
    if Manual(config) then
      match ext.suburbsByName(config.footerFeaturedSuburbs.value)
      case None => []
      case Some(found) => Entries(Take(TopUp(ValidManual(found, center, config, geo), all, geo), FooterSize), ext)
    else if |all| == 0 then []
    else Entries(SmartSelection(all, FooterSize, geo), ext)
  }

  /** What `getFooterLocations` returns for the catalogue the static module holds. */
  function FooterLocations(catalogue: seq<Suburb>, config: SiteConfig, ext: Externals, geo: Geo): seq<FooterEntry> {
    match ext.center
    case None => []
    case Some(center) => FooterFor(center, SuburbsWithPopulation(catalogue, center, config.serviceRadiusKm, geo), config, ext, geo)
  }

  /** The catalogue is read unless the centre lookup fails, or the manual path never needs a top-up. */
  predicate ReadsCatalogue(config: SiteConfig, ext: Externals, geo: Geo) {
    ext.center.Some? &&
    (!Manual(config) ||
     (ext.suburbsByName(config.footerFeaturedSuburbs.value).Some? &&
      |ValidManual(ext.suburbsByName(config.footerFeaturedSuburbs.value).value, ext.center.value, config, geo)| < FooterSize))
  }

  /** `getFooterLocations` */
  method GetFooterLocations(store: SuburbStore, file: SuburbFile, config: SiteConfig, ext: Externals, geo: Geo)
    returns (r: seq<FooterEntry>)
    modifies store
    ensures r == FooterLocations(Loaded(old(store.cached), file), config, ext, geo)
    ensures store.cached == if ReadsCatalogue(config, ext, geo) then Some(Loaded(old(store.cached), file)) else old(store.cached)
  {
    if ext.center.None? {
      return [];
    }
    var center := ext.center.value;
    var radiusKm := config.serviceRadiusKm;
    ghost var all := SuburbsWithPopulation(Loaded(old(store.cached), file), center, radiusKm, geo);
    if Manual(config) {
      var manualSuburbs := config.footerFeaturedSuburbs.value;
      var lookup := ext.suburbsByName(manualSuburbs);
      if lookup.None? {
        return [];
      }
      ManualPath(center, all, lookup.value, config, ext, geo);
      var suburbsWithDistance := EnrichAll(lookup.value, center, geo);
      var validSuburbs := InRadius(suburbsWithDistance, radiusKm);
      var finalSuburbs := validSuburbs;
      if |validSuburbs| < FooterSize {
        var allSuburbs := store.GetSuburbsWithPopulation(file, center, radiusKm, geo);
        var additionalSuburbs := SmartSelectLocations(WithoutIdsOf(allSuburbs, validSuburbs), FooterSize - |validSuburbs|, geo);
        finalSuburbs := validSuburbs + additionalSuburbs;
      }
      assert finalSuburbs == TopUp(validSuburbs, all, geo);
      return Entries(Take(finalSuburbs, FooterSize), ext);
    }
    AutomaticEquation(center, all, config, ext, geo);
    var allSuburbs := store.GetSuburbsWithPopulation(file, center, radiusKm, geo);
    if |allSuburbs| == 0 {
      return [];
    }
    var selectedSuburbs := SmartSelectLocations(allSuburbs, FooterSize, geo);
    r := Entries(selectedSuburbs, ext);
  }

  /** The automatic path links the smart selection of a non-empty radius query. */
  lemma AutomaticEquation(center: Coord, all: seq<Suburb>, config: SiteConfig, ext: Externals, geo: Geo)
    requires !Manual(config)
    ensures FooterFor(center, all, config, ext, geo) == if |all| == 0 then [] else Entries(SmartSelection(all, FooterSize, geo), ext)
  {
  }

  /** A failed centre lookup, or a failed lookup by name on the manual path, gives no links. */
  lemma FooterErrors(catalogue: seq<Suburb>, config: SiteConfig, ext: Externals, geo: Geo)
    ensures ext.center.None? ==> FooterLocations(catalogue, config, ext, geo) == []
    ensures Manual(config) && ext.suburbsByName(config.footerFeaturedSuburbs.value).None? ==>
            FooterLocations(catalogue, config, ext, geo) == []
  {
  }

  /** Never more than 11 links. */
  lemma FooterAtMostEleven(center: Coord, all: seq<Suburb>, config: SiteConfig, ext: Externals, geo: Geo)
    ensures |FooterFor(center, all, config, ext, geo)| <= FooterSize
  {
    if Manual(config) && ext.suburbsByName(config.footerFeaturedSuburbs.value).Some? {
      ManualPath(center, all, ext.suburbsByName(config.footerFeaturedSuburbs.value).value, config, ext, geo);
    }
  }

  /**
   * On the manual path the in-radius manual suburbs come first, in the order the lookup returned
   * them; the rest are suburbs of the radius query whose ids are not among them.
   */
  lemma ManualFirst(center: Coord, all: seq<Suburb>, found: seq<Suburb>, config: SiteConfig, ext: Externals, geo: Geo)
    requires Manual(config)
    requires ext.suburbsByName(config.footerFeaturedSuburbs.value) == Some(found)
    ensures LinksShaped(FooterFor(center, all, config, ext, geo), ValidManual(found, center, config, geo), all)
  {
    var valid := ValidManual(found, center, config, geo);
    ManualPath(center, all, found, config, ext, geo);
    TopUpSpec(valid, all, geo);
    EntriesShape(Take(TopUp(valid, all, geo), FooterSize), valid, all, ext);
  }

  /**
   * The links of a manual footer: one per listed suburb first, in list order, then links to
   * suburbs of `all` whose ids are not on the list, `min(11, listed + others)` in all.
   */
  predicate LinksShaped(r: seq<FooterEntry>, valid: seq<Suburb>, all: seq<Suburb>) {
    && |r| == Min(FooterSize, |valid| + |WithoutIdsOf(all, valid)|)
    && (forall k :: 0 <= k < |r| && k < |valid| ==> r[k].suburb == valid[k])
    && (forall k :: |valid| <= k < |r| ==> r[k].suburb in all && forall v :: v in valid ==> v.id != r[k].suburb.id)
  }

  /** The manual path links the first 11 of the topped-up list. */
  lemma ManualPath(center: Coord, all: seq<Suburb>, found: seq<Suburb>, config: SiteConfig, ext: Externals, geo: Geo)
    requires Manual(config)
    requires ext.suburbsByName(config.footerFeaturedSuburbs.value) == Some(found)
    ensures FooterFor(center, all, config, ext, geo) ==
            Entries(Take(TopUp(ValidManual(found, center, config, geo), all, geo), FooterSize), ext)
  {
  }

  /** The links follow the suburbs they are made from, position by position. */
  lemma EntriesShape(chosen: seq<Suburb>, valid: seq<Suburb>, all: seq<Suburb>, ext: Externals)
    requires TopUpShaped(chosen, valid, all)
    ensures LinksShaped(Entries(chosen, ext), valid, all)
  {
  }

  /** The shape of the manual list after its top-up: the list first, then other-id suburbs of `all`, 11 at most. */
  predicate TopUpShaped(r: seq<Suburb>, valid: seq<Suburb>, all: seq<Suburb>) {
    && |r| == Min(FooterSize, |valid| + |WithoutIdsOf(all, valid)|)
    && (forall k :: 0 <= k < |r| && k < |valid| ==> r[k] == valid[k])
    && (forall k :: |valid| <= k < |r| ==> r[k] in all && forall v :: v in valid ==> v.id != r[k].id)
  }

  /** The top-up keeps the list first and adds only suburbs of `all` whose ids are not on it. */
  lemma TopUpSpec(valid: seq<Suburb>, all: seq<Suburb>, geo: Geo)
    ensures TopUpShaped(Take(TopUp(valid, all, geo), FooterSize), valid, all)
  {
    if |valid| < FooterSize {
      ShortManual(valid, all, geo);
    } else {
      LongManual(valid, all, geo);
    }
  }

  /** A manual list of fewer than 11 is followed by the smart selection of the others. */
  lemma ShortManual(valid: seq<Suburb>, all: seq<Suburb>, geo: Geo)
    requires |valid| < FooterSize
    ensures TopUpShaped(Take(TopUp(valid, all, geo), FooterSize), valid, all)
  {
    var extra := SmartSelection(WithoutIdsOf(all, valid), FooterSize - |valid|, geo);
    assert TopUp(valid, all, geo) == valid + extra;
    TopUpShape(valid, extra, all);
  }

  /** A manual list of 11 or more is cut to its first 11. */
  lemma LongManual(valid: seq<Suburb>, all: seq<Suburb>, geo: Geo)
    requires |valid| >= FooterSize
    ensures TopUpShaped(Take(TopUp(valid, all, geo), FooterSize), valid, all)
  {
    assert TopUp(valid, all, geo) == valid;
  }

  /** A list of fewer than 11 followed by `11 - |valid|` (or all) of the other-id suburbs of `all`. */
  lemma TopUpShape(valid: seq<Suburb>, extra: seq<Suburb>, all: seq<Suburb>)
    requires |valid| < FooterSize && |extra| == Min(FooterSize - |valid|, |WithoutIdsOf(all, valid)|)
    requires forall x :: x in extra ==> x in WithoutIdsOf(all, valid)
    ensures TopUpShaped(Take(valid + extra, FooterSize), valid, all)
  {
    var r := Take(valid + extra, FooterSize);
    forall k | |valid| <= k < |r| ensures r[k] in WithoutIdsOf(all, valid) {
      assert r[k] == extra[k - |valid|];
    }
  }

  /**
   * On the automatic path an empty radius query gives no links; otherwise there are
   * `min(11, |all|)` links, each to a suburb of the radius query.
   */
  lemma AutomaticPath(center: Coord, all: seq<Suburb>, config: SiteConfig, ext: Externals, geo: Geo)
    requires !Manual(config)
    ensures var r := FooterFor(center, all, config, ext, geo);
      && |r| == Min(FooterSize, |all|)
      && forall k :: 0 <= k < |r| ==> r[k].suburb in all
  {
  }

  /** The module-level `cachedFooterLocations`. */
  class FooterCache {
    var cached: Option<seq<FooterEntry>>

    constructor ()
      ensures cached == None
    {
      cached := None;
    }

    /**
     * `getCachedFooterLocations`: the links are computed on the first call only (an empty list
     * is truthy, so it is kept too) and every later call returns them unchanged.
     */
    method GetCachedFooterLocations(store: SuburbStore, file: SuburbFile, config: SiteConfig, ext: Externals, geo: Geo)
      returns (r: seq<FooterEntry>)
      modifies this, store
      ensures old(cached).Some? ==> r == old(cached).value && cached == old(cached) && store.cached == old(store.cached)
      ensures old(cached).None? ==> r == FooterLocations(Loaded(old(store.cached), file), config, ext, geo)
      ensures old(cached).None? ==>
                store.cached == if ReadsCatalogue(config, ext, geo) then Some(Loaded(old(store.cached), file)) else old(store.cached)
      ensures cached == Some(r)
    {
      if cached.None? {
        var computed := GetFooterLocations(store, file, config, ext, geo);
        cached := Some(computed);
      }
      r := cached.value;
    }
  }
}
