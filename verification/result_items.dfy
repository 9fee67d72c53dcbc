/** Result assembly (`_toResultItems`): each geosearch hit is merged with the
    page entry stored under its page id and its location is reprojected to
    web mercator. The reprojection is a parameter of the model. */
module ResultItems {
  import opened Wrappers
  import PageIds

  datatype Point = Point(x: real, y: real)

  /** Geographic-to-web-mercator reprojection, applied as `(lon, lat)`. */
  type Reprojection = (real, real) -> Point

  /** One element of the geosearch response's `query.geosearch` list. */
  datatype GeoHit = GeoHit(pageid: int, title: string, lat: real, lon: real)

  /** One element of the page-info response's `query.pages` object: the
      `thumbnail.source` and `canonicalurl` properties, each possibly absent. */
  datatype PageInfo = PageInfo(thumbnailSource: Option<string>, canonicalUrl: Option<string>)

  /** The `{}` used when a hit has no page entry. */
  const EmptyPageInfo: PageInfo := PageInfo(None, None)

  /** `query.pages`, keyed by page id. */
  type Pages = map<int, PageInfo>

  /** A result item; `url` is `None` where `_toResultItems` leaves it
      `undefined` and `image` is `None` where it stores `null`. */
  datatype ResultItem = ResultItem(id: int, title: string, point: Point, url: Option<string>, image: Option<string>)

  /** Reading `query.pages` of a response that has none throws a TypeError. */
  datatype AssemblyError = PagesUndefined

  /** The hits' page ids, in geosearch order. */
  function PageIdsOf(hits: seq<GeoHit>): (ids: seq<int>)
    ensures |ids| == |hits|
    ensures forall i :: 0 <= i < |hits| ==> ids[i] == hits[i].pageid
  {
    seq(|hits|, i requires 0 <= i < |hits| => hits[i].pageid)
  }

  /** The `pageids` parameter `_getPageInfo` sends for these hits. */
  function PageIdsParam(hits: seq<GeoHit>): string {
    PageIds.EncodePageIds(PageIdsOf(hits))
  }

  /** The `pageids` parameter carries exactly the hits' ids in geosearch
      order, and is empty exactly when there are no hits. */
  lemma PageIdsParamRoundTrip(hits: seq<GeoHit>)
    ensures PageIds.DecodePageIds(PageIdsParam(hits)) == Some(PageIdsOf(hits))
    ensures PageIdsParam(hits) == "" <==> hits == []
  {
    PageIds.PageIdsRoundTrip(PageIdsOf(hits));
  }

  /** `pages[pageid] || {}`. */
  function LookupPage(pages: Pages, pageid: int): (info: PageInfo)
    ensures pageid in pages ==> info == pages[pageid]
    ensures pageid !in pages ==> info.thumbnailSource.None? && info.canonicalUrl.None?
  {
    if pageid in pages then pages[pageid] else EmptyPageInfo
  }

  /** `getObject("thumbnail.source", false, pageInfo) || null`: the empty
      string is falsy in JavaScript, so it becomes `null` as well. */
  function ImagePath(info: PageInfo): (image: Option<string>)
    ensures image.Some? <==> info.thumbnailSource.Some? && info.thumbnailSource.value != ""
    ensures image.Some? ==> image.value == info.thumbnailSource.value
  {
    match info.thumbnailSource
    case Some(source) => if source == "" then None else Some(source)
    case None => None
  }

  function ToResultItem(hit: GeoHit, pages: Pages, toMercator: Reprojection): ResultItem {
    var info := LookupPage(pages, hit.pageid);
    ResultItem(hit.pageid, hit.title, toMercator(hit.lon, hit.lat), info.canonicalUrl, ImagePath(info))
  }

  /** `array.map(geoSearch, ...)` once `query.pages` is known to exist. */
  function AssembleItems(hits: seq<GeoHit>, pages: Pages, toMercator: Reprojection): (items: seq<ResultItem>)
    ensures |items| == |hits|
    ensures forall i :: 0 <= i < |hits| ==> items[i] == ToResultItem(hits[i], pages, toMercator)
    decreases |hits|
  {
    if |hits| == 0 then []
    else [ToResultItem(hits[0], pages, toMercator)] + AssembleItems(hits[1..], pages, toMercator)
  }

  /** `_toResultItems`: one item per hit, in order. A missing `query.pages`
      only matters once the map callback runs, that is when there is a hit. */
  function ToResultItems(hits: seq<GeoHit>, pages: Option<Pages>, toMercator: Reprojection)
    : (r: Result<seq<ResultItem>, AssemblyError>)
    ensures r.Failure? <==> pages.None? && hits != []
    ensures r.Success? ==> |r.value| == |hits|
    ensures r.Success? ==> forall i :: 0 <= i < |hits| ==>
      && r.value[i].id == hits[i].pageid
      && r.value[i].title == hits[i].title
      && r.value[i].point == toMercator(hits[i].lon, hits[i].lat)
  {
    if |hits| == 0 then Success([])
    else if pages.None? then Failure(PagesUndefined)
    else Success(AssembleItems(hits, pages.value, toMercator))
  }

  /** A hit without a page entry gets `image == null` and no `url`. */
  lemma MissingEntryDefaults(hit: GeoHit, pages: Pages, toMercator: Reprojection)
    requires hit.pageid !in pages
    ensures ToResultItem(hit, pages, toMercator).image.None?
    ensures ToResultItem(hit, pages, toMercator).url.None?
  {
  }

  /** The image is `null` exactly when the entry is missing or has no
      non-empty thumbnail source; otherwise it is that source. The url is
      the entry's `canonicalurl`, absent when the entry or the field is. */
  lemma ImageAndUrlOfItem(hit: GeoHit, pages: Pages, toMercator: Reprojection)
    ensures var item := ToResultItem(hit, pages, toMercator);
      && (item.image.None? <==>
            hit.pageid !in pages || pages[hit.pageid].thumbnailSource.None?
            || pages[hit.pageid].thumbnailSource.value == "")
      && (item.image.Some? ==> item.image == pages[hit.pageid].thumbnailSource)
      && (item.url.Some? <==> hit.pageid in pages && pages[hit.pageid].canonicalUrl.Some?)
      && (item.url.Some? ==> item.url == pages[hit.pageid].canonicalUrl)
  {
  }

  /** Assembly works hit by hit: assembling two runs of hits is assembling
      each run and concatenating the results. */
  lemma {:induction false} AssembleItemsAppend(a: seq<GeoHit>, b: seq<GeoHit>, pages: Pages, toMercator: Reprojection)
    ensures AssembleItems(a + b, pages, toMercator)
         == AssembleItems(a, pages, toMercator) + AssembleItems(b, pages, toMercator)
    decreases |a|
  {
    if |a| > 0 {
      assert (a + b)[1..] == a[1..] + b;
      AssembleItemsAppend(a[1..], b, pages, toMercator);
    } else {
      assert a + b == b;
    }
  }

  /** Only the entries of the hits' own ids matter: two page maps that
      agree on those ids give the same items. */
  lemma AssembleItemsUsesOnlyHitEntries(hits: seq<GeoHit>, p1: Pages, p2: Pages, toMercator: Reprojection)
    requires forall id :: id in PageIdsOf(hits) ==> LookupPage(p1, id) == LookupPage(p2, id)
    ensures AssembleItems(hits, p1, toMercator) == AssembleItems(hits, p2, toMercator)
  {
    var r1 := AssembleItems(hits, p1, toMercator);
    var r2 := AssembleItems(hits, p2, toMercator);
    forall i | 0 <= i < |hits|
      ensures r1[i] == r2[i]
    {
      assert hits[i].pageid == PageIdsOf(hits)[i];
    }
  }

  /** One hit (the Eiffel Tower, page id 1) with a page entry holding a
      thumbnail and a canonical url gets both; the same hit with no page
      entry gets neither. */
  lemma EiffelTowerExample(toMercator: Reprojection)
    ensures var hit := GeoHit(1, "Eiffel Tower", 48.8584, 2.2945);
      var url := "https://en.wikipedia.org/wiki/Eiffel_Tower";
      && ToResultItems([hit], Some(map[1 := PageInfo(Some("t.jpg"), Some(url))]), toMercator)
         == Success([ResultItem(1, "Eiffel Tower", toMercator(2.2945, 48.8584), Some(url), Some("t.jpg"))])
      && ToResultItems([hit], Some(map[]), toMercator)
         == Success([ResultItem(1, "Eiffel Tower", toMercator(2.2945, 48.8584), None, None)])
  {
    var hit := GeoHit(1, "Eiffel Tower", 48.8584, 2.2945);
    var url := "https://en.wikipedia.org/wiki/Eiffel_Tower";
    var full := map[1 := PageInfo(Some("t.jpg"), Some(url))];
    assert ImagePath(full[1]) == Some("t.jpg");
    assert AssembleItems([hit], full, toMercator)
        == [ResultItem(1, "Eiffel Tower", toMercator(2.2945, 48.8584), Some(url), Some("t.jpg"))];
    assert AssembleItems([hit], map[], toMercator)
        == [ResultItem(1, "Eiffel Tower", toMercator(2.2945, 48.8584), None, None)];
  }

  function ItemIds(items: seq<ResultItem>): (ids: seq<int>)
    ensures |ids| == |items|
    ensures forall i :: 0 <= i < |items| ==> ids[i] == items[i].id
  {
    seq(|items|, i requires 0 <= i < |items| => items[i].id)
  }

  /** The items carry exactly the ids that were requested in `pageids`,
      in the same order. */
  lemma ItemIdsMatchRequest(hits: seq<GeoHit>, pages: Option<Pages>, toMercator: Reprojection)
    requires ToResultItems(hits, pages, toMercator).Success?
    ensures PageIds.DecodePageIds(PageIdsParam(hits))
         == Some(ItemIds(ToResultItems(hits, pages, toMercator).value))
  {
    PageIdsParamRoundTrip(hits);
    assert ItemIds(ToResultItems(hits, pages, toMercator).value) == PageIdsOf(hits);
  }
}
