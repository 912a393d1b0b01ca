/**
 * The mesh pool shared by the three WebGL grids: a stack of detached meshes,
 * the map from each visible cell to the mesh that draws it, and the
 * per-frame reconcile that reuses, takes and returns meshes. This module
 * states it on values; `SceneSync` runs the same steps on mutable fields.
 */
module MeshPool {
  import opened GridIndex
  import opened Windowing

  /** A mesh is known by its creation number: the n-th mesh ever created is mesh n. */
  type Mesh = nat

  /** What the grid sets on a mesh: the texture bound to its material, its
      position on screen and its uniform scale. */
  datatype Look = Look(texture: int, x: real, y: real, scale: real)

  /** A freshly built mesh: no texture yet, at the origin, unscaled. */
  const NO_TEXTURE := -1
  const BLANK := Look(NO_TEXTURE, 0.0, 0.0, 1.0)

  /** The reconcile loops differ: the momentum grids only move meshes; the
      WebGL grid also scales them by `smoothScroll` and re-checks the texture. */
  datatype Renderer = Momentum | WebGL(smoothScroll: bool)

  /** The pool stack, how many meshes exist, the look of each and the set of
      meshes attached to the scene. */
  datatype Stock = Stock(pool: seq<Mesh>, created: nat, looks: map<Mesh, Look>, scene: set<Mesh>)

  /** The reconcile's running state: the stock and the map being built. */
  datatype Placement = Placement(stock: Stock, next: map<Cell, Mesh>)

  /** The meshes created so far when `n` have been created: 0 .. n-1. */
  function Below(n: nat): (b: set<Mesh>)
    ensures forall m: Mesh :: m in b <==> m < n
  {
    if n == 0 then {} else Below(n - 1) + {n - 1}
  }

  function Elems(s: seq<Mesh>): set<Mesh> {
    set m | m in s
  }

  predicate NoDup(s: seq<Mesh>) {
    forall i, j :: 0 <= i < j < |s| ==> s[i] != s[j]
  }

  /** No mesh draws two cells. */
  predicate Injective(active: map<Cell, Mesh>) {
    forall c1, c2 :: c1 in active && c2 in active && c1 != c2 ==> active[c1] != active[c2]
  }

  function LookOf(looks: map<Mesh, Look>, m: Mesh): Look {
    if m in looks then looks[m] else BLANK
  }

  /** Ownership: every mesh ever created is either pooled (once) or drawing
      exactly one cell, never both; the scene holds exactly the drawing ones. */
  predicate Owned(s: Stock, active: map<Cell, Mesh>) {
    && NoDup(s.pool)
    && Injective(active)
    && Elems(s.pool) !! active.Values
    && Elems(s.pool) + active.Values == Below(s.created)
    && s.looks.Keys == Below(s.created)
    && s.scene == active.Values
  }

  /** Every drawing mesh shows the image of the cell it draws. */
  predicate ShowsOwnCell(s: Stock, active: map<Cell, Mesh>) {
    forall c | c in active :: LookOf(s.looks, active[c]).texture == CellImage(c)
  }

  /** `getMeshFromPool`: pop the pool, or build a new mesh when it is empty,
      then bind the image's texture and attach the mesh to the scene. */
  function Take(s: Stock, imageIndex: int): (r: (Stock, Mesh))
    ensures s.pool != [] ==> r.1 == s.pool[|s.pool| - 1] && r.0.pool == s.pool[..|s.pool| - 1] && r.0.created == s.created
    ensures s.pool == [] ==> r.1 == s.created && r.0.pool == [] && r.0.created == s.created + 1
    ensures r.0.scene == s.scene + {r.1} && r.0.looks.Keys == s.looks.Keys + {r.1}
    ensures LookOf(r.0.looks, r.1).texture == imageIndex
  {
    var m := if s.pool == [] then s.created else s.pool[|s.pool| - 1];
    var s1 := if s.pool == [] then s.(created := s.created + 1) else s.(pool := s.pool[..|s.pool| - 1]);
    (s1.(looks := s1.looks[m := LookOf(s1.looks, m).(texture := imageIndex)], scene := s1.scene + {m}), m)
  }

  /** The reset `returnMeshToPool` applies: back to the origin, unscaled; the texture stays. */
  function Reset(l: Look): Look {
    l.(x := 0.0, y := 0.0, scale := 1.0)
  }

  /** `returnMeshToPool`: detach from the scene, reset, push onto the pool. */
  function Give(s: Stock, m: Mesh): (r: Stock)
    ensures r.pool == s.pool + [m] && r.created == s.created && r.scene == s.scene - {m}
    ensures r.looks.Keys == s.looks.Keys + {m}
    ensures LookOf(r.looks, m) == Reset(LookOf(s.looks, m))
  {
    s.(pool := s.pool + [m], looks := s.looks[m := Reset(LookOf(s.looks, m))], scene := s.scene - {m})
  }

  /** The mesh for item `it`: the one its cell had in `prev`, else one taken
      from the pool. */
  function Claim(prev: map<Cell, Mesh>, s: Stock, it: Item): (r: (Stock, Mesh))
    ensures it.cell in prev ==> r.0 == s && r.1 == prev[it.cell]
    ensures it.cell !in prev ==> r.1 in r.0.scene && LookOf(r.0.looks, r.1).texture == it.imageIndex
  {
    if it.cell in prev then (s, prev[it.cell]) else Take(s, it.imageIndex)
  }

  /** The look the reconcile gives the mesh of `it`: moved to the item's
      place on screen; in WebGL also scaled, and re-textured when its texture
      is not the item's. */
  function Aim(l: Look, it: Item, renderer: Renderer, sx: real, sy: real): (r: Look)
    ensures PlacedAt(r, it, renderer, sx, sy)
    ensures renderer.Momentum? ==> r.texture == l.texture && r.scale == l.scale
    ensures renderer.WebGL? ==> r.texture == it.imageIndex
  {
    var moved := l.(x := it.x - sx, y := -(it.y - sy * it.speedMultiplier));
    match renderer
    case Momentum => moved
    case WebGL(smooth) =>
      moved.(scale := if smooth then 1.02 else 1.0,
             texture := if moved.texture != it.imageIndex then it.imageIndex else moved.texture)
  }

  /** One pass of the reconcile loop for item `it`: claim a mesh, aim it and
      record it in the new map. */
  function Place(prev: map<Cell, Mesh>, p: Placement, it: Item, renderer: Renderer, sx: real, sy: real): Placement {
    var t := Claim(prev, p.stock, it);
    Placement(t.0.(looks := t.0.looks[t.1 := Aim(LookOf(t.0.looks, t.1), it, renderer, sx, sy)]), p.next[it.cell := t.1])
  }

  /** The first loop of the reconcile over all of `items`, in order. */
  function PlaceAll(prev: map<Cell, Mesh>, items: seq<Item>, s: Stock, renderer: Renderer, sx: real, sy: real): (p: Placement)
    decreases |items|
  {
    if items == [] then Placement(s, map[])
    else Place(prev, PlaceAll(prev, items[..|items| - 1], s, renderer, sx, sy), items[|items| - 1], renderer, sx, sy)
  }

  /** Placing one more item of a list places the prefix, then that item. */
  lemma PlaceAllStep(prev: map<Cell, Mesh>, items: seq<Item>, i: int, s: Stock, renderer: Renderer, sx: real, sy: real)
    requires 0 <= i < |items|
    ensures PlaceAll(prev, items[..i + 1], s, renderer, sx, sy) ==
      Place(prev, PlaceAll(prev, items[..i], s, renderer, sx, sy), items[i], renderer, sx, sy)
  {
    assert items[..i + 1][..i] == items[..i];
  }

  /** How many items name a cell that had no mesh. */
  function NewCount(prev: map<Cell, Mesh>, items: seq<Item>): nat
    decreases |items|
  {
    if items == [] then 0
    else NewCount(prev, items[..|items| - 1]) + (if items[|items| - 1].cell in prev then 0 else 1)
  }

  /** The meshes whose cells left the window: the second loop returns them. */
  function Departed(prev: map<Cell, Mesh>, next: map<Cell, Mesh>): set<Mesh> {
    set c | c in prev && c !in next :: prev[c]
  }

  function Min(a: int, b: int): int {
    if a <= b then a else b
  }

  // ---------------------------------------------------------------- helpers

  lemma ElemsLast(s: seq<Mesh>)
    requires s != []
    ensures Elems(s) == Elems(s[..|s| - 1]) + {s[|s| - 1]}
  {
    assert s == s[..|s| - 1] + [s[|s| - 1]];
  }

  lemma BelowNext(n: nat)
    ensures Below(n + 1) == Below(n) + {n}
  {
  }

  lemma ValuesAdd(active: map<Cell, Mesh>, c: Cell, m: Mesh)
    requires c !in active
    ensures active[c := m].Values == active.Values + {m}
  {
    forall v | v in active.Values + {m}
      ensures v in active[c := m].Values
    {
      if v == m {
        assert active[c := m][c] == m;
      } else {
        var d :| d in active && active[d] == v;
        assert active[c := m][d] == v;
      }
    }
  }

  lemma ValuesRemove(active: map<Cell, Mesh>, c: Cell)
    requires c in active && Injective(active)
    ensures (active - {c}).Values == active.Values - {active[c]}
  {
    forall v | v in active.Values - {active[c]}
      ensures v in (active - {c}).Values
    {
      var d :| d in active && active[d] == v;
      assert (active - {c})[d] == v;
    }
  }

  // ---------------------------------------------------------------- properties

  /** The mesh `getMeshFromPool` hands out is pooled or brand new, so no
      cell is drawing it. */
  lemma TakeIsUnused(s: Stock, active: map<Cell, Mesh>)
    requires Owned(s, active)
    ensures Take(s, 0).1 !in active.Values
    ensures Elems(Take(s, 0).0.pool) + {Take(s, 0).1} == Elems(s.pool) + (Below(Take(s, 0).0.created) - Below(s.created))
    ensures Take(s, 0).1 !in Elems(Take(s, 0).0.pool)
    ensures NoDup(Take(s, 0).0.pool)
  {
    var m := Take(s, 0).1;
    if s.pool == [] {
      BelowNext(s.created);
    } else {
      ElemsLast(s.pool);
      assert s.pool[|s.pool| - 1] in Elems(s.pool);
    }
  }

  /** Taking a mesh for a cell that has none keeps ownership: the mesh leaves
      the pool (or is new) and now draws that cell. */
  lemma TakeKeepsOwned(s: Stock, active: map<Cell, Mesh>, c: Cell, imageIndex: int)
    requires Owned(s, active) && c !in active
    ensures Take(s, imageIndex).1 !in active.Values
    ensures Owned(Take(s, imageIndex).0, active[c := Take(s, imageIndex).1])
  {
    var r := Take(s, imageIndex);
    var m := r.1;
    assert r.1 == Take(s, 0).1 && r.0.pool == Take(s, 0).0.pool && r.0.created == Take(s, 0).0.created;
    TakeIsUnused(s, active);
    var active' := active[c := m];
    ValuesAdd(active, c, m);
    if s.pool == [] {
      BelowNext(s.created);
    }
    assert r.0.looks.Keys == Below(r.0.created);
    forall c1, c2 | c1 in active' && c2 in active' && c1 != c2
      ensures active'[c1] != active'[c2]
    {
      if c1 != c && c2 != c {
        assert active'[c1] == active[c1] && active'[c2] == active[c2];
      } else if c1 == c {
        assert active[c2] in active.Values;
      } else {
        assert active[c1] in active.Values;
      }
    }
  }

  /** The mesh taken for cell `c` shows `c`'s image, and every other drawing
      mesh keeps its texture. */
  lemma TakeShowsOwnCell(s: Stock, active: map<Cell, Mesh>, c: Cell)
    requires Owned(s, active) && c !in active && ShowsOwnCell(s, active)
    ensures ShowsOwnCell(Take(s, CellImage(c)).0, active[c := Take(s, CellImage(c)).1])
  {
    var r := Take(s, CellImage(c));
    TakeKeepsOwned(s, active, c, CellImage(c));
    var active' := active[c := r.1];
    forall d | d in active'
      ensures LookOf(r.0.looks, active'[d]).texture == CellImage(d)
    {
      if d != c {
        assert active[d] in active.Values;
      }
    }
  }

  /** Returning the mesh of a cell that left keeps ownership, and keeps every
      remaining mesh's texture. */
  lemma GiveKeepsOwned(s: Stock, active: map<Cell, Mesh>, c: Cell)
    requires Owned(s, active) && c in active
    ensures Owned(Give(s, active[c]), active - {c})
    ensures ShowsOwnCell(s, active) ==> ShowsOwnCell(Give(s, active[c]), active - {c})
  {
    var m := active[c];
    var s' := Give(s, m);
    ValuesRemove(active, c);
    assert m in active.Values;
    assert Elems([m]) == {m};
    PushFresh(s.pool, [m]);
    if ShowsOwnCell(s, active) {
      forall d | d in active - {c}
        ensures LookOf(s'.looks, (active - {c})[d]).texture == CellImage(d)
      {
        assert active[d] != m;
      }
    }
  }

  /** The pool is a stack: a mesh returned and then taken is the same mesh,
      and the pool is as before. */
  lemma GiveThenTake(s: Stock, m: Mesh, imageIndex: int)
    ensures Take(Give(s, m), imageIndex).1 == m
    ensures Take(Give(s, m), imageIndex).0.pool == s.pool
    ensures Take(Give(s, m), imageIndex).0.created == s.created
    ensures m in Take(Give(s, m), imageIndex).0.scene
  {
    assert (s.pool + [m])[..|s.pool|] == s.pool;
  }

  /** Taking from a non-empty pool and returning the same mesh leaves the
      pool and the scene as they were. */
  lemma TakeThenGive(s: Stock, imageIndex: int)
    requires s.pool != [] && s.pool[|s.pool| - 1] !in s.scene
    ensures Give(Take(s, imageIndex).0, Take(s, imageIndex).1).pool == s.pool
    ensures Give(Take(s, imageIndex).0, Take(s, imageIndex).1).scene == s.scene
    ensures Give(Take(s, imageIndex).0, Take(s, imageIndex).1).created == s.created
  {
    assert s.pool[..|s.pool| - 1] + [s.pool[|s.pool| - 1]] == s.pool;
  }

  // ---------------------------------------------------------------- the first loop

  /** Every item carries its cell's image index, as `generateVisibleItems` builds it. */
  ghost predicate Pictured(items: seq<Item>) {
    forall it | it in items :: it.imageIndex == CellImage(it.cell)
  }

  /** Where the reconcile puts the mesh of item `it`: its cell's place minus
      the scroll (the row scaled by the column's speed), flipped upward; the
      WebGL grid also scales it by `smoothScroll`. */
  predicate PlacedAt(l: Look, it: Item, renderer: Renderer, sx: real, sy: real) {
    && l.x == it.x - sx
    && l.y == -(it.y - sy * it.speedMultiplier)
    && (renderer.WebGL? ==> l.scale == if renderer.smoothScroll then 1.02 else 1.0)
  }

  lemma PrefixFacts(items: seq<Item>)
    requires items != []
    ensures CellsOf(items) == CellsOf(items[..|items| - 1]) + {items[|items| - 1].cell}
    ensures UniqueCells(items) ==> UniqueCells(items[..|items| - 1])
    ensures UniqueCells(items) ==> items[|items| - 1].cell !in CellsOf(items[..|items| - 1])
    ensures Pictured(items) ==> Pictured(items[..|items| - 1])
  {
    var init := items[..|items| - 1];
    assert items == init + [items[|items| - 1]];
    if UniqueCells(items) {
      forall it | it in init
        ensures it.cell != items[|items| - 1].cell
      {
        var k :| 0 <= k < |init| && init[k] == it;
        assert items[k] == it;
      }
    }
  }

  /** The new map has exactly the items' cells, and a cell that already had
      a mesh keeps it. */
  lemma {:induction false} PlaceAllKeys(prev: map<Cell, Mesh>, items: seq<Item>, s: Stock, renderer: Renderer, sx: real, sy: real)
    ensures PlaceAll(prev, items, s, renderer, sx, sy).next.Keys == CellsOf(items)
    ensures forall c | c in PlaceAll(prev, items, s, renderer, sx, sy).next && c in prev ::
      PlaceAll(prev, items, s, renderer, sx, sy).next[c] == prev[c]
    decreases |items|
  {
    if items != [] {
      PlaceAllKeys(prev, items[..|items| - 1], s, renderer, sx, sy);
      PrefixFacts(items);
    }
  }

  /** The pool is drawn from the top before any mesh is built: the first loop
      pops min(k, |pool|) meshes and builds the rest, k being the number of
      cells that had no mesh. */
  lemma {:induction false} PlaceAllStock(prev: map<Cell, Mesh>, items: seq<Item>, s: Stock, renderer: Renderer, sx: real, sy: real)
    ensures PlaceAll(prev, items, s, renderer, sx, sy).stock.pool
         == s.pool[..|s.pool| - Min(NewCount(prev, items), |s.pool|)]
    ensures PlaceAll(prev, items, s, renderer, sx, sy).stock.created
         == s.created + NewCount(prev, items) - Min(NewCount(prev, items), |s.pool|)
    decreases |items|
  {
    if items != [] {
      PlaceAllStock(prev, items[..|items| - 1], s, renderer, sx, sy);
      var k := NewCount(prev, items[..|items| - 1]);
      var p := PlaceAll(prev, items[..|items| - 1], s, renderer, sx, sy);
      var t := Claim(prev, p.stock, items[|items| - 1]);
      assert PlaceAll(prev, items, s, renderer, sx, sy).stock.pool == t.0.pool;
      assert PlaceAll(prev, items, s, renderer, sx, sy).stock.created == t.0.created;
      if items[|items| - 1].cell !in prev && k < |s.pool| {
        assert p.stock.pool[..|p.stock.pool| - 1] == s.pool[..|s.pool| - (k + 1)];
      }
    }
  }

  /** Changing the position or scale of a created mesh keeps ownership and textures. */
  lemma Relook(s: Stock, active: map<Cell, Mesh>, m: Mesh, look: Look)
    requires Owned(s, active) && m in s.looks && look.texture == s.looks[m].texture
    ensures Owned(s.(looks := s.looks[m := look]), active)
    ensures ShowsOwnCell(s, active) ==> ShowsOwnCell(s.(looks := s.looks[m := look]), active)
  {
  }

  lemma MergeUpdate(prev: map<Cell, Mesh>, next: map<Cell, Mesh>, c: Cell, m: Mesh)
    requires c !in prev
    ensures prev + next[c := m] == (prev + next)[c := m]
  {
  }

  lemma MergeKeep(prev: map<Cell, Mesh>, next: map<Cell, Mesh>, c: Cell)
    requires c in prev && c !in next
    ensures prev + next[c := prev[c]] == prev + next
  {
  }

  /** Claiming a mesh for a cell with no mesh in `prev + next` keeps ownership
      of the map extended with it, and that mesh shows the cell's image. */
  lemma ClaimKeepsOwned(prev: map<Cell, Mesh>, next: map<Cell, Mesh>, s: Stock, it: Item)
    requires Owned(s, prev + next) && ShowsOwnCell(s, prev + next)
    requires it.cell !in next && it.imageIndex == CellImage(it.cell)
    ensures Owned(Claim(prev, s, it).0, prev + next[it.cell := Claim(prev, s, it).1])
    ensures ShowsOwnCell(Claim(prev, s, it).0, prev + next[it.cell := Claim(prev, s, it).1])
    ensures Claim(prev, s, it).1 in Claim(prev, s, it).0.looks
  {
    var c := it.cell;
    if c in prev {
      MergeKeep(prev, next, c);
      assert (prev + next)[c] in (prev + next).Values;
    } else {
      var t := Take(s, it.imageIndex);
      TakeKeepsOwned(s, prev + next, c, it.imageIndex);
      TakeShowsOwnCell(s, prev + next, c);
      MergeUpdate(prev, next, c, t.1);
    }
  }

  /** One pass of the first loop keeps ownership of `prev + next` and keeps
      every drawing mesh on its own cell's image. */
  lemma PlaceKeepsOwned(prev: map<Cell, Mesh>, p: Placement, it: Item, renderer: Renderer, sx: real, sy: real)
    requires Owned(p.stock, prev + p.next) && ShowsOwnCell(p.stock, prev + p.next)
    requires it.cell !in p.next && it.imageIndex == CellImage(it.cell)
    ensures Owned(Place(prev, p, it, renderer, sx, sy).stock, prev + Place(prev, p, it, renderer, sx, sy).next)
    ensures ShowsOwnCell(Place(prev, p, it, renderer, sx, sy).stock, prev + Place(prev, p, it, renderer, sx, sy).next)
  {
    var t := Claim(prev, p.stock, it);
    var active := prev + p.next[it.cell := t.1];
    ClaimKeepsOwned(prev, p.next, p.stock, it);
    assert active[it.cell] == t.1;
    var l := LookOf(t.0.looks, t.1);
    Relook(t.0, active, t.1, Aim(l, it, renderer, sx, sy));
  }

  /** The whole first loop keeps ownership of `prev + next` and every drawing
      mesh on its own cell's image. */
  lemma {:induction false} PlaceAllOwned(prev: map<Cell, Mesh>, items: seq<Item>, s: Stock, renderer: Renderer, sx: real, sy: real)
    requires Owned(s, prev) && ShowsOwnCell(s, prev) && UniqueCells(items) && Pictured(items)
    ensures Owned(PlaceAll(prev, items, s, renderer, sx, sy).stock, prev + PlaceAll(prev, items, s, renderer, sx, sy).next)
    ensures ShowsOwnCell(PlaceAll(prev, items, s, renderer, sx, sy).stock, prev + PlaceAll(prev, items, s, renderer, sx, sy).next)
    decreases |items|
  {
    if items == [] {
      assert prev + map[] == prev;
    } else {
      var init := items[..|items| - 1];
      PrefixFacts(items);
      PlaceAllOwned(prev, init, s, renderer, sx, sy);
      PlaceAllKeys(prev, init, s, renderer, sx, sy);
      PlaceKeepsOwned(prev, PlaceAll(prev, init, s, renderer, sx, sy), items[|items| - 1], renderer, sx, sy);
    }
  }

  /** The claimed mesh draws none of the cells already placed, and claiming
      changes the look of no other mesh. */
  lemma ClaimIsUnshared(prev: map<Cell, Mesh>, next: map<Cell, Mesh>, s: Stock, it: Item)
    requires Owned(s, prev + next) && it.cell !in next
    ensures forall d | d in next :: next[d] != Claim(prev, s, it).1
    ensures forall m: Mesh | m != Claim(prev, s, it).1 :: LookOf(Claim(prev, s, it).0.looks, m) == LookOf(s.looks, m)
  {
    var active := prev + next;
    var t := Claim(prev, s, it);
    if it.cell in prev {
      forall d | d in next
        ensures next[d] != t.1
      {
        assert active[d] == next[d] && active[it.cell] == t.1;
      }
    } else {
      TakeKeepsOwned(s, active, it.cell, it.imageIndex);
      forall d | d in next
        ensures next[d] != t.1
      {
        assert active[d] == next[d] && next[d] in active.Values;
      }
    }
  }

  /** One pass aims the item's mesh and leaves the meshes of the cells
      already placed where they were. */
  lemma PlaceAimsOnlyItsMesh(prev: map<Cell, Mesh>, p: Placement, it: Item, renderer: Renderer, sx: real, sy: real)
    requires Owned(p.stock, prev + p.next) && it.cell !in p.next
    ensures it.cell in Place(prev, p, it, renderer, sx, sy).next
    ensures PlacedAt(LookOf(Place(prev, p, it, renderer, sx, sy).stock.looks,
                            Place(prev, p, it, renderer, sx, sy).next[it.cell]), it, renderer, sx, sy)
    ensures forall d | d in p.next ::
      d in Place(prev, p, it, renderer, sx, sy).next &&
      LookOf(Place(prev, p, it, renderer, sx, sy).stock.looks, Place(prev, p, it, renderer, sx, sy).next[d])
        == LookOf(p.stock.looks, p.next[d])
  {
    var t := Claim(prev, p.stock, it);
    ClaimIsUnshared(prev, p.next, p.stock, it);
  }

  /** The last pass of the first loop, in terms of the passes before it. */
  lemma PlaceAllLast(prev: map<Cell, Mesh>, items: seq<Item>, s: Stock, renderer: Renderer, sx: real, sy: real)
    requires Owned(s, prev) && ShowsOwnCell(s, prev) && UniqueCells(items) && Pictured(items) && items != []
    ensures var p := PlaceAll(prev, items[..|items| - 1], s, renderer, sx, sy);
      var q := PlaceAll(prev, items, s, renderer, sx, sy);
      var last := items[|items| - 1];
      && last.cell in q.next
      && PlacedAt(LookOf(q.stock.looks, q.next[last.cell]), last, renderer, sx, sy)
      && forall d | d in p.next :: d in q.next && LookOf(q.stock.looks, q.next[d]) == LookOf(p.stock.looks, p.next[d])
  {
    var init := items[..|items| - 1];
    PrefixFacts(items);
    PlaceAllOwned(prev, init, s, renderer, sx, sy);
    PlaceAllKeys(prev, init, s, renderer, sx, sy);
    PlaceAimsOnlyItsMesh(prev, PlaceAll(prev, init, s, renderer, sx, sy), items[|items| - 1], renderer, sx, sy);
  }

  /** After the first loop every item's mesh sits where its cell belongs. */
  lemma {:induction false} PlaceAllPositions(prev: map<Cell, Mesh>, items: seq<Item>, s: Stock, renderer: Renderer, sx: real, sy: real)
    requires Owned(s, prev) && ShowsOwnCell(s, prev) && UniqueCells(items) && Pictured(items)
    ensures forall it | it in items ::
      it.cell in PlaceAll(prev, items, s, renderer, sx, sy).next &&
      PlacedAt(LookOf(PlaceAll(prev, items, s, renderer, sx, sy).stock.looks,
                      PlaceAll(prev, items, s, renderer, sx, sy).next[it.cell]), it, renderer, sx, sy)
    decreases |items|
  {
    if items != [] {
      var init := items[..|items| - 1];
      var last := items[|items| - 1];
      var p := PlaceAll(prev, init, s, renderer, sx, sy);
      var q := PlaceAll(prev, items, s, renderer, sx, sy);
      PrefixFacts(items);
      PlaceAllPositions(prev, init, s, renderer, sx, sy);
      PlaceAllLast(prev, items, s, renderer, sx, sy);
      forall it | it in items
        ensures it.cell in q.next && PlacedAt(LookOf(q.stock.looks, q.next[it.cell]), it, renderer, sx, sy)
      {
        if it != last {
          var k :| 0 <= k < |items| && items[k] == it;
          assert init[k] == it;
        }
      }
    }
  }
  /** The WebGL grid's texture re-check never fires: at every pass the mesh
      claimed for an item already shows that item's image, whether it was the
      cell's mesh before or was just taken from the pool. */
  lemma RetextureNeverFires(prev: map<Cell, Mesh>, items: seq<Item>, s: Stock, renderer: Renderer, sx: real, sy: real, i: nat)
    requires Owned(s, prev) && ShowsOwnCell(s, prev) && UniqueCells(items) && Pictured(items) && i < |items|
    ensures var t := Claim(prev, PlaceAll(prev, items[..i], s, renderer, sx, sy).stock, items[i]);
      LookOf(t.0.looks, t.1).texture == items[i].imageIndex
  {
    var upto := items[..i + 1];
    assert upto[..i] == items[..i] && upto[i] == items[i];
    assert UniqueCells(upto) && Pictured(upto) by {
      forall it | it in upto ensures it in items { }
    }
    PrefixFacts(upto);
    var p := PlaceAll(prev, items[..i], s, renderer, sx, sy);
    PlaceAllOwned(prev, items[..i], s, renderer, sx, sy);
    PlaceAllKeys(prev, items[..i], s, renderer, sx, sy);
    ClaimKeepsOwned(prev, p.next, p.stock, items[i]);
    var t := Claim(prev, p.stock, items[i]);
    assert (prev + p.next[items[i].cell := t.1])[items[i].cell] == t.1;
  }

  // ---------------------------------------------------------------- the second loop

  /** `returnMeshToPool` on each of `ms` in turn. */
  function GiveAll(s: Stock, ms: seq<Mesh>): (r: Stock)
    ensures r.pool == s.pool + ms && r.created == s.created
    decreases |ms|
  {
    if ms == [] then s else Give(GiveAll(s, ms[..|ms| - 1]), ms[|ms| - 1])
  }

  /** Returning meshes pushes them in order, detaches them and resets them;
      nothing else changes. */
  lemma {:induction false} GiveAllShape(s: Stock, ms: seq<Mesh>)
    ensures GiveAll(s, ms).pool == s.pool + ms
    ensures GiveAll(s, ms).created == s.created
    ensures GiveAll(s, ms).scene == s.scene - Elems(ms)
    ensures GiveAll(s, ms).looks.Keys == s.looks.Keys + Elems(ms)
    ensures forall m | m in GiveAll(s, ms).looks ::
      GiveAll(s, ms).looks[m] == if m in ms then Reset(LookOf(s.looks, m)) else s.looks[m]
    decreases |ms|
  {
    if ms != [] {
      var init := ms[..|ms| - 1];
      GiveAllShape(s, init);
      ElemsLast(ms);
      assert init + [ms[|ms| - 1]] == ms;
      forall m | m in GiveAll(s, ms).looks
        ensures GiveAll(s, ms).looks[m] == if m in ms then Reset(LookOf(s.looks, m)) else s.looks[m]
      {
        if m != ms[|ms| - 1] {
          assert m in ms <==> m in init by {
            assert m in Elems(ms) <==> m in Elems(init);
          }
        }
      }
    }
  }

  /** The meshes of `prev + next` are those of `next` and the departed ones,
      which no cell of `next` uses. */
  lemma SplitValues(prev: map<Cell, Mesh>, next: map<Cell, Mesh>)
    requires Injective(prev + next)
    ensures (prev + next).Values == next.Values + Departed(prev, next)
    ensures next.Values !! Departed(prev, next)
  {
    var all := prev + next;
    forall m | m in Departed(prev, next)
      ensures m in all.Values && m !in next.Values
    {
      var c :| c in prev && c !in next && prev[c] == m;
      assert all[c] == m;
      forall d | d in next
        ensures next[d] != m
      {
        assert all[d] == next[d];
      }
    }
    forall m | m in all.Values
      ensures m in next.Values || m in Departed(prev, next)
    {
      var c :| c in all && all[c] == m;
      if c in next {
        assert next[c] == m;
      }
    }
    forall m | m in next.Values
      ensures m in all.Values
    {
      var c :| c in next && next[c] == m;
      assert all[c] == m;
    }
  }

  /** Pushing meshes that are not pooled keeps the pool free of repeats. */
  lemma PushFresh(pool: seq<Mesh>, ms: seq<Mesh>)
    requires NoDup(pool) && NoDup(ms) && Elems(pool) !! Elems(ms)
    ensures NoDup(pool + ms) && Elems(pool + ms) == Elems(pool) + Elems(ms)
  {
    var all := pool + ms;
    forall i, j | 0 <= i < j < |all|
      ensures all[i] != all[j]
    {
      if i < |pool| <= j {
        assert all[i] in Elems(pool) && all[j] == ms[j - |pool|];
        assert all[j] in Elems(ms);
      } else if |pool| <= i {
        assert all[i] == ms[i - |pool|];
      }
    }
  }

  /** The departed meshes are not pooled, so pushing them keeps the pool
      free of repeats. */
  lemma GiveAllPoolFresh(s: Stock, prev: map<Cell, Mesh>, next: map<Cell, Mesh>, ms: seq<Mesh>)
    requires Owned(s, prev + next) && NoDup(ms) && Elems(ms) == Departed(prev, next)
    ensures NoDup(GiveAll(s, ms).pool)
    ensures Elems(GiveAll(s, ms).pool) == Elems(s.pool) + Elems(ms)
    ensures (prev + next).Values == next.Values + Elems(ms) && next.Values !! Elems(ms)
  {
    GiveAllShape(s, ms);
    SplitValues(prev, next);
    assert Elems(s.pool) !! Elems(ms);
    PushFresh(s.pool, ms);
  }

  /** A map that draws no mesh twice still does once some cells are dropped. */
  lemma InjectiveRestrict(prev: map<Cell, Mesh>, next: map<Cell, Mesh>)
    requires Injective(prev + next)
    ensures Injective(next)
  {
    var all := prev + next;
    forall c1, c2 | c1 in next && c2 in next && c1 != c2
      ensures next[c1] != next[c2]
    {
      assert all[c1] == next[c1] && all[c2] == next[c2];
    }
  }

  /** Returning the departed meshes leaves the staying meshes' textures alone. */
  lemma GiveAllKeepsImages(s: Stock, prev: map<Cell, Mesh>, next: map<Cell, Mesh>, ms: seq<Mesh>)
    requires Owned(s, prev + next) && ShowsOwnCell(s, prev + next)
    requires Elems(ms) == Departed(prev, next) && next.Values !! Elems(ms)
    ensures ShowsOwnCell(GiveAll(s, ms), next)
  {
    var all := prev + next;
    var s' := GiveAll(s, ms);
    GiveAllShape(s, ms);
    forall c | c in next
      ensures LookOf(s'.looks, next[c]).texture == CellImage(c)
    {
      assert all[c] == next[c];
      assert next[c] in next.Values;
    }
  }

  /** The second loop: once every departed mesh has been returned, exactly
      the new map's meshes draw and every other mesh is pooled once. */
  lemma GiveAllOwned(s: Stock, prev: map<Cell, Mesh>, next: map<Cell, Mesh>, ms: seq<Mesh>)
    requires Owned(s, prev + next) && NoDup(ms) && Elems(ms) == Departed(prev, next)
    ensures Owned(GiveAll(s, ms), next)
    ensures ShowsOwnCell(s, prev + next) ==> ShowsOwnCell(GiveAll(s, ms), next)
  {
    var s' := GiveAll(s, ms);
    GiveAllShape(s, ms);
    GiveAllPoolFresh(s, prev, next, ms);
    InjectiveRestrict(prev, next);
    assert Elems(s'.pool) + next.Values == Below(s'.created);
    if ShowsOwnCell(s, prev + next) {
      GiveAllKeepsImages(s, prev, next, ms);
    }
  }
  // ---------------------------------------------------------------- the whole reconcile

  /** One reconcile, both loops, whatever order the second loop returns the
      departed meshes in: the new map has exactly the items' cells, a cell
      that stayed keeps its mesh, every item's mesh sits at the item's place,
      and ownership and textures are kept. */
  lemma ReconcileKeepsOwned(prev: map<Cell, Mesh>, items: seq<Item>, s: Stock, renderer: Renderer, sx: real, sy: real, ms: seq<Mesh>)
    requires Owned(s, prev) && ShowsOwnCell(s, prev) && UniqueCells(items) && Pictured(items)
    requires NoDup(ms) && Elems(ms) == Departed(prev, PlaceAll(prev, items, s, renderer, sx, sy).next)
    ensures var p := PlaceAll(prev, items, s, renderer, sx, sy);
      && Owned(GiveAll(p.stock, ms), p.next)
      && ShowsOwnCell(GiveAll(p.stock, ms), p.next)
      && p.next.Keys == CellsOf(items)
      && (forall c | c in p.next && c in prev :: p.next[c] == prev[c])
      && (forall it | it in items ::
            it.cell in p.next && PlacedAt(LookOf(GiveAll(p.stock, ms).looks, p.next[it.cell]), it, renderer, sx, sy))
  {
    var p := PlaceAll(prev, items, s, renderer, sx, sy);
    PlaceAllOwned(prev, items, s, renderer, sx, sy);
    PlaceAllKeys(prev, items, s, renderer, sx, sy);
    PlaceAllPositions(prev, items, s, renderer, sx, sy);
    GiveAllOwned(p.stock, prev, p.next, ms);
    GiveAllShape(p.stock, ms);
    SplitValues(prev, p.next);
    forall it | it in items
      ensures LookOf(GiveAll(p.stock, ms).looks, p.next[it.cell]) == LookOf(p.stock.looks, p.next[it.cell])
    {
      assert p.next[it.cell] in p.next.Values;
      assert p.next[it.cell] !in Elems(ms);
    }
  }
}
