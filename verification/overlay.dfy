/** Marker construction and overlay bookkeeping: `_createGraphic`,
    `addResultGraphics`, `clearResultGraphics`, `_findGraphicById` and the
    final state `highlightGraphic` leaves the view in. The view is a value:
    its graphics collection, its popup, the point the camera is centred on,
    and a counter standing in for object identity. */
module Overlay {
  import opened Wrappers
  import opened ResultItems

  /** Side length of the shared marker icon, in pixels. */
  const IconSize: nat := 24

  /** The picture-marker symbol every marker shares (its image url is a
      fixed resource and is not modelled). */
  datatype MarkerSymbol = PictureMarkerSymbol(width: nat, height: nat)

  const Symbol: MarkerSymbol := PictureMarkerSymbol(IconSize, IconSize)

  /** The popup template: the title bound to `{title}`, the content a link
      bound to `{url}` (its localized anchor text is not modelled). */
  datatype PopupTemplate = LinkPopupTemplate(title: string, href: string)

  const Template: PopupTemplate := LinkPopupTemplate("{title}", "{url}")

  /** A result item without its `point`. */
  datatype Attributes = Attributes(id: int, title: string, url: Option<string>, image: Option<string>)

  /** A graphic object. `ref` stands for its identity: two graphics built
      from the same result are still different objects. */
  datatype Graphic = Graphic(ref: nat, geometry: Point, symbol: MarkerSymbol,
                             attributes: Attributes, popupTemplate: PopupTemplate)

  /** What can be handed to the graphics collection: graphics, and (as
      `addResultGraphics` does) result items. */
  datatype Element = GraphicElement(graphic: Graphic) | ItemElement(item: ResultItem)

  datatype Popup = Popup(visible: bool, features: seq<Graphic>, updateLocationEnabled: bool)

  /** The parts of the map view the helper reads or writes. `nextRef` is
      the identity the next new graphic receives. */
  datatype View = View(graphics: seq<Element>, popup: Popup, center: Point, nextRef: nat)

  /** Every graphic in the collection was created before `nextRef`, so new
      graphics are never confused with old ones. */
  predicate WellFormed(view: View) {
    forall i :: 0 <= i < |view.graphics| && view.graphics[i].GraphicElement? ==>
      view.graphics[i].graphic.ref < view.nextRef
  }

  /** The collection holds graphics only. */
  predicate OnlyGraphics(elements: seq<Element>) {
    forall i :: 0 <= i < |elements| ==> elements[i].GraphicElement?
  }

  /** `_createGraphic`: the attributes are a copy of the result with `point`
      deleted; the point becomes the geometry. */
  function CreateGraphic(result: ResultItem, ref: nat): (g: Graphic)
    ensures g.ref == ref && g.geometry == result.point
    ensures g.symbol == Symbol && g.popupTemplate == Template
    ensures g.attributes.id == result.id && g.attributes.title == result.title
    ensures g.attributes.url == result.url && g.attributes.image == result.image
  {
    Graphic(ref, result.point, Symbol,
            Attributes(result.id, result.title, result.url, result.image), Template)
  }

  /** The result a graphic displays: its attributes with the geometry put
      back as `point`. */
  function ResultOf(g: Graphic): ResultItem {
    ResultItem(g.attributes.id, g.attributes.title, g.geometry, g.attributes.url, g.attributes.image)
  }

  /** Deleting `point` loses nothing: the graphic's geometry and attributes
      give back the result it was built from. */
  lemma CreateGraphicKeepsResult(result: ResultItem, ref: nat)
    ensures ResultOf(CreateGraphic(result, ref)) == result
  {
  }

  function GraphicElements(gs: seq<Graphic>): (es: seq<Element>)
    ensures |es| == |gs| && OnlyGraphics(es)
    ensures forall i :: 0 <= i < |gs| ==> es[i] == GraphicElement(gs[i])
  {
    seq(|gs|, i requires 0 <= i < |gs| => GraphicElement(gs[i]))
  }

  function ItemElements(items: seq<ResultItem>): (es: seq<Element>)
    ensures |es| == |items|
    ensures forall i :: 0 <= i < |items| ==> es[i] == ItemElement(items[i])
  {
    seq(|items|, i requires 0 <= i < |items| => ItemElement(items[i]))
  }

  /** `collection.removeMany(xs)`: every element of `xs` goes, everything
      else stays, in its order and with its multiplicity. */
  function RemoveMany(coll: seq<Element>, xs: seq<Element>): (r: seq<Element>)
    ensures forall e :: e in r <==> e in coll && e !in xs
    ensures forall e :: e !in xs ==> multiset(r)[e] == multiset(coll)[e]
    ensures |r| <= |coll|
    decreases |coll|
  {
    if |coll| == 0 then []
    else
      assert coll == [coll[0]] + coll[1..];
      (if coll[0] in xs then [] else [coll[0]]) + RemoveMany(coll[1..], xs)
  }

  /** Removal acts element by element, so it keeps the collection's order. */
  lemma {:induction false} RemoveManyAppend(a: seq<Element>, b: seq<Element>, xs: seq<Element>)
    ensures RemoveMany(a + b, xs) == RemoveMany(a, xs) + RemoveMany(b, xs)
    decreases |a|
  {
    if |a| > 0 {
      assert (a + b)[1..] == a[1..] + b;
      RemoveManyAppend(a[1..], b, xs);
    } else {
      assert a + b == b;
    }
  }

  /** Removing elements the collection does not hold leaves it unchanged. */
  lemma {:induction false} RemoveManyAbsent(coll: seq<Element>, xs: seq<Element>)
    requires forall i :: 0 <= i < |coll| ==> coll[i] !in xs
    ensures RemoveMany(coll, xs) == coll
    decreases |coll|
  {
    if |coll| > 0 {
      RemoveManyAbsent(coll[1..], xs);
    }
  }

  /** `clearResultGraphics`: the given elements leave the collection and
      the popup is hidden, whether or not it showed one of them. */
  function ClearResultGraphics(view: View, elements: seq<Element>): (r: View)
    ensures forall e :: e in r.graphics <==> e in view.graphics && e !in elements
    ensures forall e :: e !in elements ==> multiset(r.graphics)[e] == multiset(view.graphics)[e]
    ensures !r.popup.visible
    ensures r.popup.features == view.popup.features
    ensures r.center == view.center && r.nextRef == view.nextRef
    ensures WellFormed(view) ==> WellFormed(r)
  {
    var r := view.(graphics := RemoveMany(view.graphics, elements),
                   popup := view.popup.(visible := false));
    assert WellFormed(view) ==> forall i :: 0 <= i < |r.graphics| ==> r.graphics[i] in view.graphics;
    r
  }

  /** The result of `addResultGraphics`: the updated view and the graphics
      it returns to the caller. */
  datatype Added = Added(view: View, graphics: seq<Graphic>)

  /** The `forEach` of `addResultGraphics`: one new graphic per result,
      added to the collection and pushed onto the returned list. */
  function AddEach(view: View, results: seq<ResultItem>): (a: Added)
    ensures |a.graphics| == |results|
    ensures a.view.popup == view.popup && a.view.center == view.center
    ensures a.view.nextRef == view.nextRef + |results|
    decreases |results|
  {
    if |results| == 0 then Added(view, [])
    else
      var g := CreateGraphic(results[0], view.nextRef);
      var next := View(view.graphics + [GraphicElement(g)], view.popup, view.center, view.nextRef + 1);
      var rest := AddEach(next, results[1..]);
      Added(rest.view, [g] + rest.graphics)
  }

  /** The i-th returned graphic is built from the i-th result and gets the
      i-th fresh identity. */
  lemma {:induction false} AddEachGraphics(view: View, results: seq<ResultItem>)
    ensures forall i :: 0 <= i < |results| ==>
      AddEach(view, results).graphics[i] == CreateGraphic(results[i], view.nextRef + i)
    decreases |results|
  {
    if |results| > 0 {
      var g := CreateGraphic(results[0], view.nextRef);
      var next := View(view.graphics + [GraphicElement(g)], view.popup, view.center, view.nextRef + 1);
      AddEachGraphics(next, results[1..]);
      var gs := AddEach(view, results).graphics;
      var rest := AddEach(next, results[1..]).graphics;
      forall i | 1 <= i < |results|
        ensures gs[i] == CreateGraphic(results[i], view.nextRef + i)
      {
        assert gs[i] == rest[i - 1];
        assert results[1..][i - 1] == results[i];
      }
    }
  }

  /** The collection ends with the returned graphics, in order, after
      everything it held before. */
  lemma {:induction false} AddEachCollection(view: View, results: seq<ResultItem>)
    ensures AddEach(view, results).view.graphics
         == view.graphics + GraphicElements(AddEach(view, results).graphics)
    decreases |results|
  {
    if |results| > 0 {
      var g := CreateGraphic(results[0], view.nextRef);
      var next := View(view.graphics + [GraphicElement(g)], view.popup, view.center, view.nextRef + 1);
      AddEachCollection(next, results[1..]);
      var rest := AddEach(next, results[1..]).graphics;
      assert GraphicElements([g] + rest) == [GraphicElement(g)] + GraphicElements(rest);
    }
  }

  /** `addResultGraphics`: it first clears the RESULT ITEMS (not graphics)
      from the collection and hides the popup, then adds one new graphic per
      result, in input order. */
  function AddResultGraphics(view: View, results: seq<ResultItem>): (a: Added)
    ensures |a.graphics| == |results|
    ensures forall i :: 0 <= i < |results| ==>
      && ResultOf(a.graphics[i]) == results[i]
      && a.graphics[i].ref == view.nextRef + i
    ensures a.view.graphics
         == RemoveMany(view.graphics, ItemElements(results)) + GraphicElements(a.graphics)
    ensures !a.view.popup.visible
    ensures a.view.center == view.center
    ensures WellFormed(view) ==> WellFormed(a.view)
  {
    var cleared := ClearResultGraphics(view, ItemElements(results));
    var a := AddEach(cleared, results);
    AddEachGraphics(cleared, results);
    AddEachCollection(cleared, results);
    assert WellFormed(view) ==> WellFormed(a.view) by {
      if WellFormed(view) {
        forall i | 0 <= i < |a.view.graphics| && a.view.graphics[i].GraphicElement?
          ensures a.view.graphics[i].graphic.ref < a.view.nextRef
        {
          if i >= |cleared.graphics| {
            assert a.view.graphics[i] == GraphicElement(a.graphics[i - |cleared.graphics|]);
          } else {
            assert a.view.graphics[i] == cleared.graphics[i];
          }
        }
      }
    }
    a
  }

  /** On a collection of graphics, the initial clear of `addResultGraphics`
      removes nothing: earlier markers stay and the new ones follow them. */
  lemma AddResultGraphicsKeepsEarlierGraphics(view: View, results: seq<ResultItem>)
    requires OnlyGraphics(view.graphics)
    ensures AddResultGraphics(view, results).view.graphics
         == view.graphics + GraphicElements(AddResultGraphics(view, results).graphics)
  {
    RemoveManyAbsent(view.graphics, ItemElements(results));
  }

  /** Removing a superset of the collection's elements empties it. */
  lemma {:induction false} RemoveManyAll(coll: seq<Element>, xs: seq<Element>)
    requires forall i :: 0 <= i < |coll| ==> coll[i] in xs
    ensures RemoveMany(coll, xs) == []
    decreases |coll|
  {
    if |coll| > 0 {
      RemoveManyAll(coll[1..], xs);
    }
  }

  /** Graphics with identities from `bound` on are not in a collection
      whose graphics all have smaller identities. */
  lemma FreshGraphicsAbsent(coll: seq<Element>, bound: nat, gs: seq<Graphic>)
    requires forall i :: 0 <= i < |coll| && coll[i].GraphicElement? ==> coll[i].graphic.ref < bound
    requires forall i :: 0 <= i < |gs| ==> gs[i].ref >= bound
    ensures forall i :: 0 <= i < |coll| ==> coll[i] !in GraphicElements(gs)
  {
  }

  /** Removing what was appended restores the collection, provided the
      appended elements were new to it. */
  lemma RemoveAppended(prior: seq<Element>, added: seq<Element>)
    requires forall i :: 0 <= i < |prior| ==> prior[i] !in added
    ensures RemoveMany(prior + added, added) == prior
  {
    RemoveManyAbsent(prior, added);
    RemoveManyAll(added, added);
    RemoveManyAppend(prior, added, added);
  }

  /** Clearing the graphics `addResultGraphics` returned takes exactly those
      markers off the map again and leaves the popup hidden. */
  lemma ClearUndoesAdd(view: View, results: seq<ResultItem>)
    requires WellFormed(view)
    ensures var a := AddResultGraphics(view, results);
      var c := ClearResultGraphics(a.view, GraphicElements(a.graphics));
      && c.graphics == RemoveMany(view.graphics, ItemElements(results))
      && !c.popup.visible
  {
    var a := AddResultGraphics(view, results);
    var cleared := ClearResultGraphics(view, ItemElements(results));
    var added := GraphicElements(a.graphics);
    FreshGraphicsAbsent(cleared.graphics, view.nextRef, a.graphics);
    RemoveAppended(cleared.graphics, added);
  }

  /** `_findGraphicById`: the first graphic whose `attributes.id` equals
      `id`, or nothing (`undefined`) when none does. */
  function FindGraphicById(id: int, results: seq<Graphic>): (r: Option<Graphic>)
    ensures r.None? <==> forall i :: 0 <= i < |results| ==> results[i].attributes.id != id
    ensures r.Some? ==> exists i :: (0 <= i < |results| && results[i] == r.value
      && r.value.attributes.id == id
      && forall j :: 0 <= j < i ==> results[j].attributes.id != id)
    decreases |results|
  {
    if |results| == 0 then None
    else if results[0].attributes.id == id then Some(results[0])
    else
      var r := FindGraphicById(id, results[1..]);
      assert forall i :: 1 <= i < |results| ==> results[i] == results[1..][i - 1];
      r
  }

  /** `highlightGraphic` reads `.geometry` of the match without a check, so
      an id with no graphic throws a TypeError. */
  datatype HighlightError = GraphicUndefined(id: int)

  /** The state `highlightGraphic` leaves behind once the camera move has
      finished: the view is centred on the first matching graphic and the
      popup shows exactly that graphic, following its location. */
  function HighlightGraphic(view: View, id: int, results: seq<Graphic>): (r: Result<View, HighlightError>)
    ensures r.Failure? <==> forall i :: 0 <= i < |results| ==> results[i].attributes.id != id
    ensures r.Success? ==> exists i :: (0 <= i < |results|
      && results[i].attributes.id == id
      && (forall j :: 0 <= j < i ==> results[j].attributes.id != id)
      && r.value.center == results[i].geometry
      && r.value.popup == Popup(true, [results[i]], true))
    ensures r.Success? ==> r.value.graphics == view.graphics && r.value.nextRef == view.nextRef
  {
    match FindGraphicById(id, results)
    case None => Failure(GraphicUndefined(id))
    case Some(g) => Success(view.(center := g.geometry, popup := Popup(true, [g], true)))
  }

  /** Highlighting with a guard on the lookup: an unknown id leaves the view
      as it was; a known id behaves exactly like `highlightGraphic`. */
  function HighlightGraphicOrIgnore(view: View, id: int, results: seq<Graphic>): (r: View)
    ensures (forall i :: 0 <= i < |results| ==> results[i].attributes.id != id) ==> r == view
    ensures r.graphics == view.graphics && r.nextRef == view.nextRef
  {
    match HighlightGraphic(view, id, results)
    case Failure(_) => view
    case Success(v) => v
  }

  /** The guarded version agrees with `highlightGraphic` wherever
      `highlightGraphic` does not throw. */
  lemma HighlightGraphicOrIgnoreAgrees(view: View, id: int, results: seq<Graphic>)
    requires exists i :: 0 <= i < |results| && results[i].attributes.id == id
    ensures HighlightGraphicOrIgnore(view, id, results) == HighlightGraphic(view, id, results).value
  {
  }

  /** A concrete input on which `highlightGraphic` throws: no graphics at
      all. */
  lemma HighlightGraphicMissThrows(view: View, id: int)
    ensures HighlightGraphic(view, id, []) == Failure(GraphicUndefined(id))
    ensures HighlightGraphicOrIgnore(view, id, []) == view
  {
  }
}
