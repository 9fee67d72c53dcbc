/** `findNearbyItems` as a composition of its stages: resolve the search
    centre and radius, ask the geosearch service, ask the page-info service
    about the ids found, assemble the items. The two remote services and
    both reprojections are parameters; a service either answers or fails
    with a reason, and a failure ends the chain unchanged. */
module NearbySearch {
  import opened Wrappers
  import opened ResultItems
  import SearchRadius
  import PageIds

  /** Side of the square thumbnails requested, in pixels. */
  const ThumbnailSize: nat := 125

  /** What `findNearbyItems` reads of a map view: the centre of the visible
      extent and the ground length of its bottom edge, as the geometry
      library measures it between the extent's lower corners. */
  datatype MapView = MapView(center: Point, bottomEdgeLength: real)

  /** The `options` object: with a view, the centre and radius are derived
      from it and overwrite whatever was given. */
  datatype Options = Options(view: Option<MapView>, center: Point, searchRadius: int, maxResults: int)

  /** The variable query parameters of the geosearch request (`action`,
      `list` and `format` are fixed); `gscoord` is `lat|lon`. */
  datatype GeoSearchQuery = GeoSearchQuery(gslimit: int, gsradius: int, lat: real, lon: real)

  /** The variable query parameters of the page-info request (`prop`,
      `piprop`, `inprop` and `format` are fixed). */
  datatype PageInfoQuery = PageInfoQuery(pageids: string, pithumbsize: nat, pilimit: int)

  datatype SearchError = TransportFailure(reason: string) | AssemblyFailed(cause: AssemblyError)

  /** Web-mercator-to-geographic reprojection; the result's `x` is the
      longitude and `y` the latitude. */
  type ToGeographic = Point -> Point

  type GeoSearchService = GeoSearchQuery -> Result<seq<GeoHit>, string>

  /** Answers with `query.pages`, which may be missing from the response. */
  type PageInfoService = PageInfoQuery -> Result<Option<Pages>, string>

  /** The first step of `findNearbyItems`. An explicitly given radius is
      passed on as it is, without clamping. */
  function ResolveOptions(options: Options): (r: Options)
    ensures r.maxResults == options.maxResults && r.view == options.view
    ensures options.view.Some? ==>
      && r.center == options.view.value.center
      && r.searchRadius == SearchRadius.GetSearchRadius(options.view.value.bottomEdgeLength)
      && SearchRadius.MinSearchRadius <= r.searchRadius <= SearchRadius.MaxSearchRadius
    ensures options.view.None? ==> r == options
  {
    match options.view
    case Some(view) =>
      options.(searchRadius := SearchRadius.GetSearchRadius(view.bottomEdgeLength), center := view.center)
    case None => options
  }

  /** `_findNearbyItems`' request: the centre goes to the service in
      geographic coordinates, latitude first. */
  function GeoSearchRequest(options: Options, toGeographic: ToGeographic): (q: GeoSearchQuery)
    ensures q.gslimit == options.maxResults && q.gsradius == options.searchRadius
    ensures q.lat == toGeographic(options.center).y && q.lon == toGeographic(options.center).x
  {
    var center := toGeographic(options.center);
    GeoSearchQuery(options.maxResults, options.searchRadius, center.y, center.x)
  }

  /** `_getPageInfo`'s request: one batch naming every hit's page id. */
  function PageInfoRequest(hits: seq<GeoHit>, maxResults: int): (q: PageInfoQuery)
    ensures PageIds.DecodePageIds(q.pageids) == Some(PageIdsOf(hits))
    ensures q.pageids == "" <==> hits == []
    ensures q.pithumbsize == ThumbnailSize && q.pilimit == maxResults
  {
    PageIdsParamRoundTrip(hits);
    PageInfoQuery(PageIdsParam(hits), ThumbnailSize, maxResults)
  }

  /** `findNearbyItems`: the stages run strictly one after another, the
      page-info request being built from the geosearch answer. */
  function FindNearbyItems(options: Options, toGeographic: ToGeographic, toMercator: Reprojection,
                           geoSearch: GeoSearchService, pageInfo: PageInfoService)
    : (r: Result<seq<ResultItem>, SearchError>)
    ensures var q := GeoSearchRequest(ResolveOptions(options), toGeographic);
      geoSearch(q).Failure? ==> r == Failure(TransportFailure(geoSearch(q).error))
    ensures var q := GeoSearchRequest(ResolveOptions(options), toGeographic);
      geoSearch(q).Success? ==>
        var hits := geoSearch(q).value;
        var answer := pageInfo(PageInfoRequest(hits, options.maxResults));
        && (answer.Failure? ==> r == Failure(TransportFailure(answer.error)))
        && (answer.Success? ==>
              (r.Failure? <==> answer.value.None? && hits != [])
              && (r.Success? ==> |r.value| == |hits| && ItemIds(r.value) == PageIdsOf(hits))
              && (ToResultItems(hits, answer.value, toMercator).Success? ==>
                    r == Success(ToResultItems(hits, answer.value, toMercator).value))
              && (ToResultItems(hits, answer.value, toMercator).Failure? ==>
                    r == Failure(AssemblyFailed(PagesUndefined))))
  {
    var resolved := ResolveOptions(options);
    match geoSearch(GeoSearchRequest(resolved, toGeographic))
    case Failure(reason) => Failure(TransportFailure(reason))
    case Success(hits) =>
      match pageInfo(PageInfoRequest(hits, resolved.maxResults))
      case Failure(reason) => Failure(TransportFailure(reason))
      case Success(pages) =>
        match ToResultItems(hits, pages, toMercator)
        case Failure(cause) => Failure(AssemblyFailed(cause))
        case Success(items) =>
          assert ItemIds(items) == PageIdsOf(hits);
          Success(items)
  }

  /** Searching from a view always asks the geosearch service for a radius
      inside the admissible range, around the view's centre. */
  lemma ViewSearchRadiusInRange(options: Options, toGeographic: ToGeographic)
    requires options.view.Some?
    ensures var q := GeoSearchRequest(ResolveOptions(options), toGeographic);
      && SearchRadius.MinSearchRadius <= q.gsradius <= SearchRadius.MaxSearchRadius
      && q.gsradius == SearchRadius.GetSearchRadius(options.view.value.bottomEdgeLength)
      && q.lat == toGeographic(options.view.value.center).y
  {
  }

  /** A successful search returns, item by item, the title and reprojected
      location of the hit the geosearch service found at that position,
      together with that hit's page id. */
  lemma FindNearbyItemsFollowHits(options: Options, toGeographic: ToGeographic, toMercator: Reprojection,
                                  geoSearch: GeoSearchService, pageInfo: PageInfoService)
    requires FindNearbyItems(options, toGeographic, toMercator, geoSearch, pageInfo).Success?
    ensures var hits := geoSearch(GeoSearchRequest(ResolveOptions(options), toGeographic)).value;
      var items := FindNearbyItems(options, toGeographic, toMercator, geoSearch, pageInfo).value;
      && |items| == |hits|
      && forall i :: 0 <= i < |hits| ==>
           && items[i].id == hits[i].pageid
           && items[i].title == hits[i].title
           && items[i].point == toMercator(hits[i].lon, hits[i].lat)
  {
    var q := GeoSearchRequest(ResolveOptions(options), toGeographic);
    var hits := geoSearch(q).value;
    var answer := pageInfo(PageInfoRequest(hits, options.maxResults));
    assert answer.Success?;
    assert ToResultItems(hits, answer.value, toMercator).Success?;
  }
}
