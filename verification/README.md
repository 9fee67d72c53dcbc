# Wikipedia-nearby helper: a Dafny model

This project models the decision logic of the Wikipedia-nearby helper module
`finished/4x/WikiWidget/support/wikiHelper.js` and proves properties of it.
The module finds encyclopedia articles near the visible part of a map and
turns them into result items. It then manages the markers ("graphics") for
those items in the map view's overlay collection, together with the view's
popup.

The model has six modules:

- `Wrappers` (`wrappers.dfy`): `Option` stands for a value that may be
  `undefined`/`null`. `Result` stands for a step that may throw or reject.
- `SearchRadius` (`search_radius.dfy`): `clamp` and `getSearchRadius`. The
  radius is `floor(clamp(ceil(d), 10, 10000))`, where `d` is the measured
  ground length of the bottom edge of the visible extent.
- `PageIds` (`page_ids.dfy`): the `pageids` request parameter. Each id is
  written in plain decimal, as JavaScript writes a whole number below
  10^21, and the ids are joined with `|`. The module also has the matching reader (`split("|")` followed by
  number parsing), so the round trip can be proved.
- `ResultItems` (`result_items.dfy`): `_toResultItems`. It merges the
  geosearch hits with the `query.pages` entries and reprojects each location.
- `Overlay` (`overlay.dfy`): `_createGraphic`, `addResultGraphics`,
  `clearResultGraphics`, `_findGraphicById`, and the final state left by
  `highlightGraphic`. The view is an immutable value holding:
  - the graphics collection;
  - the popup (visibility, features, location tracking);
  - the point the camera is centred on;
  - a counter that gives every new graphic its own identity, as JavaScript
    objects have.
- `NearbySearch` (`nearby_search.dfy`): `findNearbyItems`, written as the
  sequence of its stages. The two remote services are function parameters.

Some things the module relies on are outside this model and are passed in as
parameters:

- `mathUtils.getLength` becomes the measured length input.
- `webMercatorToGeographic` and `geographicToWebMercator` become
  function-typed parameters.
- The two `esriRequest` calls become function-typed parameters.

`_toResultItems` sets `image` with `|| null`, so an empty thumbnail source
also becomes `null`. `ResultItems.ImagePath` models this.

## Model

| member | source | states |
|---|---|---|
| `SearchRadius.Clamp` | finished/4x/WikiWidget/support/wikiHelper.js:42-44 | When `min <= max` the result lies in `[min, max]`. A value already inside is returned unchanged; values outside go to the nearer bound. When `min > max` the result is `max`. |
| `SearchRadius.Ceil` | finished/4x/WikiWidget/support/wikiHelper.js:80 | `Math.ceil`: the result is the unique integer `r` with `r - 1 < x <= r`. |
| `SearchRadius.GetSearchRadius` | finished/4x/WikiWidget/support/wikiHelper.js:70-82 | For every distance, the radius is an integer in `[10, 10000]`. |
| `SearchRadius.GetSearchRadiusIsLeastCover` | finished/4x/WikiWidget/support/wikiHelper.js:79-81 | Up to 10000 m, the radius is the least admissible integer radius that covers the measured distance. Beyond 10000 m it is 10000. |
| `SearchRadius.DegenerateExtentGetsMinimum` | finished/4x/WikiWidget/support/wikiHelper.js:79-81 | A zero-length extent gets exactly the minimum radius, 10. |
| `SearchRadius.GetSearchRadiusInRange` | finished/4x/WikiWidget/support/wikiHelper.js:79-81 | When `ceil(d)` is already in `[10, 10000]`, the radius is exactly `ceil(d)`. |
| `SearchRadius.GetSearchRadiusMonotone` | finished/4x/WikiWidget/support/wikiHelper.js:79-81 | A longer distance never gives a smaller radius. |
| `SearchRadius.GetSearchRadiusIdempotent` | finished/4x/WikiWidget/support/wikiHelper.js:79-81 | Applying the policy to its own output gives the same radius: every admissible radius is a fixed point. |
| `PageIds.IdRoundTrip` | finished/4x/WikiWidget/support/wikiHelper.js:158-159 | Reading back the decimal text of any page id, including a negative one, gives that id. |
| `PageIds.Split` | finished/4x/WikiWidget/support/wikiHelper.js:160 | The string split on `|` has at least one piece. It has exactly one piece when there is no `|`. |
| `PageIds.SplitJoin` | finished/4x/WikiWidget/support/wikiHelper.js:160 | Splitting a `|`-join of one or more pieces that contain no `|` gives back exactly those pieces. |
| `PageIds.EncodePageIds` | finished/4x/WikiWidget/support/wikiHelper.js:158-160 | The joined id string is empty exactly when there are no ids. |
| `PageIds.PageIdsRoundTrip` | finished/4x/WikiWidget/support/wikiHelper.js:158-160 | Decoding the `pageids` string gives back exactly the id list, in order. This includes the empty list, which is sent as the empty string. |
| `ResultItems.PageIdsParamRoundTrip` | finished/4x/WikiWidget/support/wikiHelper.js:155-160 | The `pageids` parameter carries the hits' `pageid`s in geosearch order. It is empty exactly when there are no hits. |
| `ResultItems.ImagePath` | finished/4x/WikiWidget/support/wikiHelper.js:189 | The image is present exactly when the entry has a non-empty thumbnail source, and then it equals that source. Otherwise it is `null`. |
| `ResultItems.AssembleItems` | finished/4x/WikiWidget/support/wikiHelper.js:187-207 | There is one item per hit, and item `i` is assembled from hit `i` alone. |
| `ResultItems.ToResultItems` | finished/4x/WikiWidget/support/wikiHelper.js:183-207 | The assembly fails exactly when `query.pages` is missing and there is at least one hit. Otherwise: one item per hit, in order; item `i` has hit `i`'s `pageid` as `id`, its `title`, and `point = ToMercator(lon, lat)`. |
| `ResultItems.MissingEntryDefaults` | finished/4x/WikiWidget/support/wikiHelper.js:188-190 | A hit with no page entry gets `image == null` and no `url`. It does not fail. |
| `ResultItems.ImageAndUrlOfItem` | finished/4x/WikiWidget/support/wikiHelper.js:188-190 | The image is `null` if and only if the entry is missing, has no thumbnail source, or has an empty one. The url is present if and only if the entry has a `canonicalurl`, and then it is that url. |
| `ResultItems.AssembleItemsAppend` | finished/4x/WikiWidget/support/wikiHelper.js:187 | Assembling two runs of hits one after the other gives the concatenation of the two results, so input order is preserved. |
| `ResultItems.AssembleItemsUsesOnlyHitEntries` | finished/4x/WikiWidget/support/wikiHelper.js:188 | Two page maps that agree on the hits' ids give the same items. Entries for other ids never matter. |
| `ResultItems.ItemIdsMatchRequest` | finished/4x/WikiWidget/support/wikiHelper.js:158-160 | The assembled items' ids are exactly the ids decoded from the `pageids` request, in order. |
| `ResultItems.EiffelTowerExample` | finished/4x/WikiWidget/support/wikiHelper.js:183-207 | Worked example: one hit with a full page entry gives url and image. The same hit with no entry gives no url and a `null` image. |
| `Overlay.CreateGraphicKeepsResult` | finished/4x/WikiWidget/support/wikiHelper.js:213-214 | The attributes are the result with `point` removed, and the geometry is the `point`. The graphic's geometry and attributes together give back the original result exactly. |
| `Overlay.RemoveMany` | finished/4x/WikiWidget/support/wikiHelper.js:108 | An element survives the removal if and only if it was in the collection and was not passed. Every other element keeps its multiplicity. |
| `Overlay.RemoveManyAppend` | finished/4x/WikiWidget/support/wikiHelper.js:108 | Removal works element by element, so the order of the remaining graphics is kept. |
| `Overlay.RemoveManyAbsent` | finished/4x/WikiWidget/support/wikiHelper.js:108 | Removing elements that are not in the collection leaves the collection unchanged. |
| `Overlay.RemoveManyAll` | finished/4x/WikiWidget/support/wikiHelper.js:108 | Removing every element the collection holds leaves it empty. |
| `Overlay.ClearResultGraphics` | finished/4x/WikiWidget/support/wikiHelper.js:104-110 | Exactly the given elements leave the collection, and all others stay with their multiplicity. The popup is always hidden. Its features, the camera centre and identities are unchanged. |
| `Overlay.AddEachGraphics` | finished/4x/WikiWidget/support/wikiHelper.js:94-99 | The `i`-th returned graphic is built from the `i`-th result and has the `i`-th fresh identity. |
| `Overlay.AddEachCollection` | finished/4x/WikiWidget/support/wikiHelper.js:94-99 | After adding, the collection is its old contents followed by the returned graphics, in order. |
| `Overlay.AddResultGraphics` | finished/4x/WikiWidget/support/wikiHelper.js:84-102 | Returns one graphic per result, in input order, each displaying its result and each a new object. The collection becomes the prior collection, minus elements equal to the passed result items, with the new graphics appended. The popup is hidden, and the well-formedness of identities is preserved. |
| `Overlay.AddResultGraphicsKeepsEarlierGraphics` | finished/4x/WikiWidget/support/wikiHelper.js:89-92 | The initial clear receives result items rather than graphics. On a collection of graphics it therefore removes nothing: earlier markers stay and the new ones follow them. |
| `Overlay.ClearUndoesAdd` | finished/4x/WikiWidget/support/wikiHelper.js:84-110 | Clearing the graphics that `addResultGraphics` returned takes exactly those markers off the map again. The popup stays hidden. |
| `Overlay.FindGraphicById` | finished/4x/WikiWidget/support/wikiHelper.js:226-240 | Returns nothing if and only if no graphic has that id. Otherwise it returns the first graphic in the list whose `attributes.id` equals the id. |
| `Overlay.HighlightGraphic` | finished/4x/WikiWidget/support/wikiHelper.js:112-125 | Throws if and only if no graphic has the id. Otherwise the camera is centred on the first match, and the popup is visible, shows exactly `[match]` and tracks its location. The collection is untouched. |
| `Overlay.HighlightGraphicOrIgnore` | finished/4x/WikiWidget/support/wikiHelper.js:112-125 | With a guard on the lookup, an unknown id leaves the view exactly as it was. The collection is never touched. |
| `Overlay.HighlightGraphicOrIgnoreAgrees` | finished/4x/WikiWidget/support/wikiHelper.js:112-125 | Wherever the source does not throw, the guarded highlight gives the same state as the source. |
| `Overlay.HighlightGraphicMissThrows` | finished/4x/WikiWidget/support/wikiHelper.js:119 | With an empty graphics list, the source reads `.geometry` of `undefined` and throws. The guarded version leaves the view unchanged. |
| `NearbySearch.ResolveOptions` | finished/4x/WikiWidget/support/wikiHelper.js:54-58 | With a view, the centre becomes the view's centre and the radius is `getSearchRadius` of the view's measured edge length, so it lies in `[10, 10000]`. Without a view, the options are used as given, and an explicit radius is not clamped. |
| `NearbySearch.PageInfoRequest` | finished/4x/WikiWidget/support/wikiHelper.js:154-173 | The page-info request names exactly the hits' ids, in order. It is still sent, with an empty `pageids`, when there are no hits. It asks for 125-pixel thumbnails and at most `maxResults` pages. |
| `NearbySearch.FindNearbyItems` | finished/4x/WikiWidget/support/wikiHelper.js:54-68 | A failing service ends the chain with that service's failure unchanged. Otherwise the result is exactly what `_toResultItems` builds from the hits and the page answer: the items themselves on success, and `AssemblyFailed(PagesUndefined)` when `query.pages` is missing and there are hits. On success there is one item per hit, whose ids are the hits' ids in order. |
| `NearbySearch.FindNearbyItemsFollowHits` | finished/4x/WikiWidget/support/wikiHelper.js:54-68 | A successful search returns one item per geosearch hit, in order. Item `i` has hit `i`'s page id, title and reprojected location. |
| `NearbySearch.ViewSearchRadiusInRange` | finished/4x/WikiWidget/support/wikiHelper.js:54-58 | A search from a view always sends the geosearch service a radius in `[10, 10000]`, namely `getSearchRadius` of the view. |

## Left out

- Remote I/O. Both `esriRequest` calls (wikiHelper.js:138-151 and 162-180) and the promise chain of `findNearbyItems` are function parameters. The model has no asynchrony, no callback parameter and no fixed request fields (`action`, `list`, `prop`, `piprop`, `inprop`, `format`). A response without `query.geosearch` is not modelled: the geosearch service either returns a hit list or fails.
- Geometry library. `mathUtils.getLength` is replaced by its measured result (`MapView.bottomEdgeLength`). Both reprojections are uninterpreted function parameters. Floating-point rounding, NaN and infinite distances are not modelled: numbers are exact reals.
- Rendering. The marker symbol and the popup template are fixed constants. The icon URL, the HTML content string and the localized "more info" label are not modelled.
- Camera and popup timing. Only the final state of `highlightGraphic` is modelled: the view is centred on the match, then the popup opens. A `goTo` that rejects, and therefore never opens the popup, is not modelled. Other popup properties (its location, docking) are not modelled.
- Mutation of options. `findNearbyItems` writes the derived radius and centre back into the caller's options object. The model returns new options instead.
- `Overlay.FindGraphicById`: ids are `int`, so JavaScript's loose `==` (which would also match the string `"42"` against `42`) is modelled as plain equality.
- `Overlay.RemoveMany`: the map's collection `removeMany` removes only the first occurrence of each passed item; the model removes every occurrence. The two agree when no element appears twice in the collection, which holds for graphics added by this module because they are always new objects. `Overlay.RemoveManyAppend` and `Overlay.RemoveManyAll` are stated for the all-occurrences rule and hold only under it. Result items passed to it are compared by value, not by object identity.
- `PageIds.IdToString`: page ids are unbounded integers written in plain decimal. JavaScript numbers are doubles, so ids of 10^21 or more would be written in exponent form (`"1e+21"`), and integers above 2^53 are not exact. Real page ids are far below 2^53, so the model assumes this width.
- The widget shell, `demo/3x-practice/WikiWidget/WikiWidget.js`. It has a CSS class table and a constructor that only logs, so it has no logic to model.

## Findings

| source | as written | input that shows it | evidently intended | confidence | as-written member | corrected member |
|---|---|---|---|---|---|---|
| finished/4x/WikiWidget/support/wikiHelper.js:119 | `view.goTo(graphic.geometry)` dereferences the result of `_findGraphicById` without checking it. | An `id` that no graphic in `results` carries, for example `results = []`: `graphic` is `undefined` and reading `.geometry` throws a TypeError. | An unknown id is ignored, or reported as a miss, and the view is not changed. | medium; not executed | `Overlay.HighlightGraphicMissThrows` | `Overlay.HighlightGraphicOrIgnore` |
