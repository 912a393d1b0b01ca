/**
 * The refs the three WebGL grids keep across frames — the mesh pool, the
 * map from visible cells to meshes, the scene — and the operations that
 * update them in place: `getMeshFromPool`, `returnMeshToPool`, the
 * per-frame reconcile effect and the hover lookup.
 */
module SceneSync {
  import opened Options
  import opened GridIndex
  import opened ItemIds
  import opened Windowing
  import opened MeshPool

  class MeshRefs {
    /** `meshPoolRef.current`: detached meshes, popped and pushed at the end. */
    var pool: seq<Mesh>
    /** How many meshes have been built. */
    var created: nat
    /** The texture, position and scale of every mesh built. */
    var looks: map<Mesh, Look>
    /** The meshes attached to the scene. */
    var scene: set<Mesh>
    /** `activeMeshesRef.current`, keyed by cell (its id `col-row` is injective). */
    var active: map<Cell, Mesh>

    function Contents(): Stock
      reads this
    {
      Stock(pool, created, looks, scene)
    }

    /** Every mesh built is pooled once or draws exactly one visible cell,
        showing that cell's image; the scene holds the drawing ones. */
    predicate Valid()
      reads this
    {
      Owned(Contents(), active) && ShowsOwnCell(Contents(), active)
    }

    /** The refs on mount: nothing built, nothing drawn. */
    constructor()
      ensures Valid()
      ensures pool == [] && created == 0 && looks == map[] && scene == {} && active == map[]
    {
      pool := [];
      created := 0;
      looks := map[];
      scene := {};
      active := map[];
    }

    /** `getMeshFromPool`: the last pooled mesh, or a new one when the pool is
        empty; its material gets the image's texture and it joins the scene. */
    method GetMeshFromPool(imageIndex: int) returns (mesh: Mesh)
      modifies this
      ensures (Contents(), mesh) == Take(old(Contents()), imageIndex)
      ensures active == old(active)
    {
      if |pool| > 0 {
        mesh := pool[|pool| - 1];
        pool := pool[..|pool| - 1];
      } else {
        mesh := created;
        created := created + 1;
      }
      looks := looks[mesh := LookOf(looks, mesh).(texture := imageIndex)];
      if mesh !in scene {
        scene := scene + {mesh};
      } else {
        assert scene + {mesh} == scene;
      }
    }

    /** `returnMeshToPool`: leave the scene, reset position and scale, and
        go back on top of the pool. */
    method ReturnMeshToPool(mesh: Mesh)
      modifies this
      ensures Contents() == Give(old(Contents()), mesh)
      ensures active == old(active)
    {
      scene := scene - {mesh};
      looks := looks[mesh := Reset(LookOf(looks, mesh))];
      pool := pool + [mesh];
    }

    /** The first loop of the reconcile effect: for each item, the mesh its
        cell had, or one from the pool, moved to the item's place (and, in
        WebGL, scaled and re-textured); the new map is returned. */
    method PlaceItems(items: seq<Item>, renderer: Renderer, x: real, y: real) returns (next: map<Cell, Mesh>)
      modifies this
      ensures Placement(Contents(), next) == PlaceAll(old(active), items, old(Contents()), renderer, x, y)
      ensures active == old(active)
    {
      ghost var s0 := Contents();
      next := map[];
      var i := 0;
      while i < |items|
        invariant 0 <= i <= |items|
        invariant Placement(Contents(), next) == PlaceAll(active, items[..i], s0, renderer, x, y)
        invariant active == old(active)
      {
        var item := items[i];
        ghost var before := Contents();
        var mesh: Mesh;
        if item.cell in active {
          mesh := active[item.cell];
        } else {
          mesh := GetMeshFromPool(item.imageIndex);
        }
        assert (Contents(), mesh) == Claim(active, before, item);
        ghost var claimed := Contents();
        ghost var aimed := Aim(LookOf(claimed.looks, mesh), item, renderer, x, y);
        var look := LookOf(looks, mesh).(x := item.x - x, y := -(item.y - y * item.speedMultiplier));
        if renderer.WebGL? {
          look := look.(scale := if renderer.smoothScroll then 1.02 else 1.0);
          if look.texture != item.imageIndex {
            look := look.(texture := item.imageIndex);
          }
          assert look == aimed;
        } else {
          assert look == aimed;
        }
        looks := looks[mesh := look];
        next := next[item.cell := mesh];
        assert items[..i + 1][..i] == items[..i];
        PlaceAllStep(active, items, i, s0, renderer, x, y);
        assert Placement(Contents(), next) == Place(active, PlaceAll(active, items[..i], s0, renderer, x, y), item, renderer, x, y);
        i := i + 1;
      }
      assert items[..i] == items;
    }

    /** The second loop of the reconcile effect: every cell of the old map
        missing from `next` returns its mesh to the pool. The old map is
        visited in an order this model leaves open. */
    method ReturnDeparted(next: map<Cell, Mesh>) returns (ghost released: seq<Mesh>)
      requires Injective(active)
      modifies this
      ensures active == old(active)
      ensures NoDup(released) && Elems(released) == Departed(old(active), next)
      ensures Contents() == GiveAll(old(Contents()), released)
    {
      ghost var mid := Contents();
      released := [];
      var remaining := active.Keys;
      while remaining != {}
        invariant remaining <= active.Keys
        invariant Contents() == GiveAll(mid, released)
        invariant NoDup(released)
        invariant Elems(released) == set c | c in active && c !in remaining && c !in next :: active[c]
        invariant active == old(active)
        decreases remaining
      {
        var id :| id in remaining;
        if id !in next {
          ReleasedOnce(active, remaining, next, released, id);
          ReturnMeshToPool(active[id]);
          released := released + [old(active)[id]];
        }
        remaining := remaining - {id};
      }
      assert Elems(released) == Departed(active, next);
    }

    /** The reconcile effect run whenever the scroll position changes: list
        the visible items, place a mesh on each, return the meshes of the
        cells that left, and keep the new map. */
    method Reconcile(x: real, y: real, table: int -> real, renderer: Renderer) returns (ghost released: seq<Mesh>)
      requires Valid()
      modifies this
      ensures Valid()
      ensures active.Keys == CellsOf(VisibleItems(x, y, table, BUFFER))
      ensures active == PlaceAll(old(active), VisibleItems(x, y, table, BUFFER), old(Contents()), renderer, x, y).next
      ensures forall c | c in active && c in old(active) :: active[c] == old(active)[c]
      ensures forall it | it in VisibleItems(x, y, table, BUFFER) ::
        it.cell in active && PlacedAt(LookOf(looks, active[it.cell]), it, renderer, x, y)
      ensures NoDup(released) && Elems(released) == Departed(old(active), active)
      ensures Contents() == GiveAll(PlaceAll(old(active), VisibleItems(x, y, table, BUFFER), old(Contents()), renderer, x, y).stock, released)
    {
      var items := GenerateVisibleItems(x, y, table);
      WellFormedImages(items, table);
      var prev := active;
      ghost var s0 := Contents();
      ghost var p := PlaceAll(prev, items, s0, renderer, x, y);
      var next := PlaceItems(items, renderer, x, y);
      assert Contents() == p.stock && next == p.next;
      released := ReturnDeparted(next);
      ReconcileKeepsOwned(prev, items, s0, renderer, x, y, released);
      active := next;
      assert Contents() == GiveAll(p.stock, released);
    }

    /** The hover lookup of `handleMouseMove`: the item, among `items`, whose
        id is that of the cell the hit mesh draws. */
    method HoveredItem(hit: Mesh, items: seq<Item>) returns (found: Option<Item>)
      requires Valid()
      ensures hit !in active.Values ==> found == None
      ensures forall c | c in active && active[c] == hit :: found == FindById(items, CellId(c))
    {
      found := None;
      var keys := active.Keys;
      while keys != {}
        invariant keys <= active.Keys
        invariant forall c | c in active && active[c] == hit && c !in keys :: found == FindById(items, CellId(c))
        invariant (forall c | c in active && active[c] == hit :: c in keys) ==> found == None
        decreases keys
      {
        var id :| id in keys;
        if active[id] == hit {
          found := FindById(items, CellId(id));
        }
        keys := keys - {id};
      }
    }
  }

  /** Returning the mesh of a cell not yet visited adds a mesh not yet returned. */
  lemma ReleasedOnce(prev: map<Cell, Mesh>, remaining: set<Cell>, next: map<Cell, Mesh>, released: seq<Mesh>, id: Cell)
    requires Injective(prev) && id in remaining && remaining <= prev.Keys && id !in next
    requires NoDup(released)
    requires Elems(released) == set c | c in prev && c !in remaining && c !in next :: prev[c]
    ensures NoDup(released + [prev[id]])
    ensures Elems(released + [prev[id]]) == set c | c in prev && c !in remaining - {id} && c !in next :: prev[c]
  {
    assert prev[id] !in Elems(released);
    ElemsLast(released + [prev[id]]);
    assert (released + [prev[id]])[..|released|] == released;
  }
}
