/**
 * What only the text grid adds to the shared core: the hover caption (the
 * mesh under the pointer is looked up among the listed items by the id of
 * the cell it draws) and the click that opens the hovered image's link.
 */
module TextGrid {
  import opened Options
  import opened GridIndex
  import opened ItemIds
  import opened Windowing
  import opened MeshPool
  import opened SceneSync
  import opened Planar
  import ScrollMotion

  /** The `hoverText` and `hoveredItem` state, and whether the cursor is the
      pointing hand (otherwise it is the grab cursor). */
  datatype Hover = Hover(text: string, item: Option<Item>, pointerCursor: bool)

  /** Nothing hovered. */
  const NoHover := Hover("", None, false)

  /** The hover state after a raycast: nothing hit clears it; a hit whose item
      was found shows that item's caption; a hit whose item was not found
      changes nothing. */
  function HoverAfter(h: Hover, hit: bool, found: Option<Item>, captions: seq<string>): (r: Hover)
    requires found.Some? ==> 0 <= found.value.imageIndex < |captions|
    ensures !hit ==> r == NoHover
    ensures hit && found.None? ==> r == h
    ensures hit && found.Some? ==> r.item == found && r.text == captions[found.value.imageIndex] && r.pointerCursor
  {
    if !hit then NoHover
    else match found
      case None => h
      case Some(it) => Hover(captions[it.imageIndex], found, true)
  }

  /** The lookup part of `handleMouseMove` on the items `items`, shared by the
      two versions below: `hit` is the mesh the raycast met first, if any. */
  method HoverOver(refs: MeshRefs, h: Hover, hit: Option<Mesh>, items: seq<Item>, table: int -> real, captions: seq<string>)
    returns (r: Hover)
    requires refs.Valid() && |captions| == PALETTE_SIZE && WellFormed(items, table)
    requires hit.Some? ==> hit.value in refs.active.Values
    ensures hit.None? ==> r == NoHover
    ensures hit.Some? ==> forall c | c in refs.active && refs.active[c] == hit.value ::
      r == HoverAfter(h, true, FindById(items, CellId(c)), captions)
  {
    if hit.None? {
      return NoHover;
    }
    var found := refs.HoveredItem(hit.value, items);
    WellFormedImages(items, table);
    r := HoverAfter(h, true, found, captions);
  }

  /** `handleMouseMove` as written: the callback is memoised with no
      dependencies, so it keeps calling the item list of the first render,
      whose scroll position is the origin. Once the view has scrolled away,
      hovering a drawn mesh finds no item and the caption does not change. */
  method HandleMouseMoveAsWritten(refs: MeshRefs, h: Hover, dragging: bool, hit: Option<Mesh>,
                                  table: int -> real, captions: seq<string>)
    returns (r: Hover)
    requires refs.Valid() && |captions| == PALETTE_SIZE
    requires hit.Some? ==> hit.value in refs.active.Values
    ensures dragging ==> r == h
    ensures !dragging && hit.None? ==> r == NoHover
    ensures !dragging && hit.Some? ==> forall c | c in refs.active && refs.active[c] == hit.value ::
      (InWindow(c, 0.0, 0.0, table, BUFFER) ==> r == Hover(captions[CellImage(c)], Some(ItemAt(c, table)), true)) &&
      (!InWindow(c, 0.0, 0.0, table, BUFFER) ==> r == h)
  {
    if dragging {
      return h;
    }
    var items := GenerateVisibleItems(0.0, 0.0, table);
    r := HoverOver(refs, h, hit, items, table, captions);
    forall c | c in refs.active && hit.Some? && refs.active[c] == hit.value {
      FindCellInWindow(0.0, 0.0, table, c);
    }
  }

  /** `handleMouseMove` as intended: the lookup runs over the items of the
      current scroll position, which the reconcile effect has drawn. Then
      hovering any drawn mesh shows the caption of the image its cell shows. */
  method HandleMouseMove(refs: MeshRefs, h: Hover, dragging: bool, hit: Option<Mesh>,
                         x: real, y: real, table: int -> real, captions: seq<string>)
    returns (r: Hover)
    requires refs.Valid() && |captions| == PALETTE_SIZE
    requires refs.active.Keys == CellsOf(VisibleItems(x, y, table, BUFFER))
    requires hit.Some? ==> hit.value in refs.active.Values
    ensures dragging ==> r == h
    ensures !dragging && hit.None? ==> r == NoHover
    ensures !dragging && hit.Some? ==> forall c | c in refs.active && refs.active[c] == hit.value ::
      r == Hover(captions[CellImage(c)], Some(ItemAt(c, table)), true)
  {
    if dragging {
      return h;
    }
    var items := GenerateVisibleItems(x, y, table);
    r := HoverOver(refs, h, hit, items, table, captions);
    VisibleItemsExact(x, y, table, BUFFER);
    forall c | c in refs.active
      ensures FindById(items, CellId(c)) == Some(ItemAt(c, table))
    {
      FindCellInWindow(x, y, table, c);
    }
  }

  /** The windows at the origin and at horizontal offset 1000 share no cell:
      after scrolling 1000 units right, every drawn mesh is missed by the
      lookup as written, while the intended lookup finds, for instance, the
      item of cell (40, 0). */
  lemma StaleHoverMisses(table: int -> real)
    ensures forall c :: InWindow(c, 1000.0, 0.0, table, BUFFER) ==> !InWindow(c, 0.0, 0.0, table, BUFFER)
    ensures InWindow(Cell(40, 0), 1000.0, 0.0, table, BUFFER)
    ensures FindById(VisibleItems(0.0, 0.0, table, BUFFER), CellId(Cell(40, 0))) == None
    ensures FindById(VisibleItems(1000.0, 0.0, table, BUFFER), CellId(Cell(40, 0))) == Some(ItemAt(Cell(40, 0), table))
  {
    OriginWindow(table);
    assert StartCol(1000.0, BUFFER) == 38 by {
      assert 1000.0 / 25.0 == 40.0;
    }
    assert FirstRow(40, 1000.0 - 1000.0, table, BUFFER) == -2;
    FindCellInWindow(0.0, 0.0, table, Cell(40, 0));
    FindCellInWindow(1000.0, 0.0, table, Cell(40, 0));
  }

  /** `handleMeshClick`: outside a drag, the link of the hovered item's image,
      if it has one. */
  function MeshClickLink(dragging: bool, h: Hover, links: seq<string>): (r: Option<string>)
    requires h.item.Some? ==> 0 <= h.item.value.imageIndex < |links|
    ensures r.Some? <==> !dragging && h.item.Some? && links[h.item.value.imageIndex] != ""
    ensures r.Some? ==> r.value == links[h.item.value.imageIndex]
  {
    if dragging || h.item.None? then None
    else if links[h.item.value.imageIndex] != "" then Some(links[h.item.value.imageIndex])
    else None
  }

  /** `handleClick`: outside a drag, switch smooth mode on and follow the
      hovered link. Returns the new motion state and the link opened. */
  function Click(m: ScrollMotion.Motion, h: Hover, links: seq<string>): (r: (ScrollMotion.Motion, Option<string>))
    requires h.item.Some? ==> 0 <= h.item.value.imageIndex < |links|
    ensures r.0 == ScrollMotion.Click(m)
    ensures m.dragging ==> r.1 == None
    ensures r.1.Some? ==> h.item.Some? && r.1.value == links[h.item.value.imageIndex] && r.1.value != ""
  {
    if m.dragging then (m, None)
    else (m.(smoothScroll := true), MeshClickLink(m.dragging, h, links))
  }

  /** Pressing the pointer hides the caption and forgets the hovered item,
      so a click that ends a drag opens nothing. */
  function PointerStart(m: ScrollMotion.Motion, h: Hover, p: Vec): (r: (ScrollMotion.Motion, Hover))
    ensures r.0 == ScrollMotion.PointerStart(m, p)
    ensures r.1.text == "" && r.1.item == None && r.1.pointerCursor == h.pointerCursor
  {
    (ScrollMotion.PointerStart(m, p), h.(text := "", item := None))
  }

  /** A click over a hovered cell opens the link of the image that cell
      shows; a click right after pressing the pointer opens nothing. */
  lemma ClickFollowsHover(m: ScrollMotion.Motion, c: Cell, table: int -> real, captions: seq<string>, links: seq<string>, p: Vec)
    requires |captions| == PALETTE_SIZE && |links| == PALETTE_SIZE
    requires !m.dragging && links[CellImage(c)] != ""
    ensures Click(m, Hover(captions[CellImage(c)], Some(ItemAt(c, table)), true), links).1 == Some(links[CellImage(c)])
    ensures var (m2, h2) := PointerStart(m, Hover(captions[CellImage(c)], Some(ItemAt(c, table)), true), p);
      Click(m2, h2, links).1 == None
  {
  }
}
