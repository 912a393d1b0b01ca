# Infinite image grid — a verified model of its core

The repository ships four React components that draw an endless,
wrap-around grid of image cards. Three of them draw with Three.js: the text
grid `grid-txt.jsx`, the image grid `imgInfinite.jsx` and the WebGL grid
`InfiniteGridGL.jsx`. The fourth, the DOM grid `Grid.jsx`, draws absolutely
positioned `div`s. All four share one idea. The logical plane of cells
(column, row) is unbounded, and each cell shows one of 25 palette images,
picked by its column and row wrapped into a 5 × 5 tile. Every column
scrolls vertically at its own speed. The components list only the cells
near the viewport, plus a buffer.

The Dafny project models that shared core:

* `JsArith`, `Planar` (`js_arith.dfy`) hold JavaScript's truncating `%`,
  the double-modulo wrap, `Math.floor` and `Math.ceil`, and the 2-D
  vectors the scroll state is made of.
* `GridIndex` (`grid_index.dfy`) holds the grid constants, the wrapped
  ("actual") column and row, and the image index of a cell.
* `ItemIds` (`cell_id.dfy`) holds the `${col}-${row}` item id and its
  parser.
* `Windowing` (`windowing.dfy`) holds `generateVisibleItems`, which is
  written out identically in the three WebGL grids. It is given as a
  specification function and as the loop-based method that it specifies.
* `MeshPool` (`mesh_pool.dfy`) holds the mesh pool and the per-frame
  reconcile effect, stated on values. `SceneSync` (`scene_sync.dfy`) holds
  the same operations on the refs the components mutate in place
  (`meshPoolRef`, `activeMeshesRef`, the scene), as a class.
* `ScrollMotion` (`scroll_motion.dfy`) holds the momentum scrolling of the
  text grid and the image grid. It covers the animation-frame tick and the
  pointer, wheel and click handlers, on values and on a class of refs.
* `DirectScroll` (`direct_scroll.dfy`) holds the direct scrolling of the
  WebGL grid and the DOM grid: wheel, arrow keys, the click-enabled smooth
  mode and the scroll-end timer.
* `SpeedTables` (`speed_tables.dfy`) holds the per-column speed tables: three distinct tables for the four grids, because the text grid and the image grid share `MomentumSpeed`.
* `DomGrid` (`dom_grid.dfy`) holds the DOM grid's column list and
  per-column tile list.
* `TextGrid` (`text_grid.dfy`) holds the text grid's hover caption and its
  link click.

Logical cells are modelled by a `Cell(col, row)` value. Each item and each
active-mesh entry is keyed by that value, not by its string id. The key
swap is justified by `ItemIds.CellIdInjective` and
`ItemIds.CellIdRoundTrip`. A mesh is known by its creation number. The
per-column speed table is a parameter (`table`) wherever the same code
runs under different tables. The card width is `100 / 4` and the card
height `100 / 1.5` (`GridIndex.CardSizes`). The window bounds divide by
them written as numerals, 25 and 200/3; `Windowing.CardUnits` states that
the two forms agree.

The WebGL grids' code is duplicated. Rows cite the text grid's copy, and
the same lines are found as follows:

| code | `imgInfinite.jsx` | `InfiniteGridGL.jsx` |
|---|---|---|
| `generateVisibleItems` | 245-274 | 138-170 |
| pool | 219-243 | 93-135 |
| reconcile | 335-358 | 248-294 |

The image grid repeats the text grid's motion code at 60-199.

## Model

| member | source | states |
|---|---|---|
| JsArith.JsRem | src/components/grid-txt.jsx:354 | JavaScript `%` with a positive divisor: the result has the dividend's sign and lies strictly within one divisor of zero |
| JsArith.JsRemCongruent | src/components/grid-txt.jsx:354 | the JavaScript remainder differs from the dividend by a multiple of the divisor |
| JsArith.Wrap | src/components/grid-txt.jsx:338 | `((n % p) + p) % p` always lands in `[0, p)`, negative `n` included |
| JsArith.WrapIsEuclidean | src/components/grid-txt.jsx:338 | the double-modulo wrap equals the mathematical (Euclidean) residue of `n` modulo `p` |
| JsArith.WrapPeriodic | src/components/grid-txt.jsx:338 | shifting by whole periods never changes the wrapped index: the grid repeats |
| JsArith.Floor | src/components/grid-txt.jsx:334 | `Math.floor` gives the integer `f` with `f <= r < f + 1` |
| JsArith.Ceil | src/components/grid-txt.jsx:335 | `Math.ceil` gives the integer `c` with `c - 1 < r <= c` |
| GridIndex.ActualCol | src/components/grid-txt.jsx:338 | the actual column is in `[0, 5)` and is the column's residue mod 5 |
| GridIndex.ActualRow | src/components/grid-txt.jsx:345 | the actual row is in `[0, 5)` and is the row's residue mod 5 |
| GridIndex.ImageIndex | src/components/grid-txt.jsx:354 | for a non-negative combined index the image index is a valid palette index |
| GridIndex.CellImage | src/components/grid-txt.jsx:338-354 | every logical cell, negative coordinates included, shows a valid palette image |
| GridIndex.ImageIndexTiles | src/components/grid-txt.jsx:354 | the 25 actual cells map one-to-one onto the 25 images: the actual column and row are recovered from the index by `/ 5` and `% 5` |
| GridIndex.CellImageIffCongruent | src/components/grid-txt.jsx:338-354 | two cells show the same image exactly when their columns agree mod 5 and their rows agree mod 5 |
| GridIndex.CellImagePeriodic | src/components/grid-txt.jsx:338-354 | moving a cell by whole 5 × 5 tiles keeps its image |
| ItemIds.IntToString | src/components/grid-txt.jsx:348 | an integer renders as a non-empty string of digits, with a leading `-` exactly when it is negative |
| ItemIds.CellId | src/components/grid-txt.jsx:348 | the id of a cell has at least three characters, all digits or dashes |
| ItemIds.DecimalRoundTrip | src/components/grid-txt.jsx:348 | the decimal digits written for a natural number parse back to it |
| ItemIds.IntRoundTrip | src/components/grid-txt.jsx:348 | the template-literal rendering of any integer, a leading `-` included, parses back to it |
| ItemIds.CellIdRoundTrip | src/components/grid-txt.jsx:348 | the id `${col}-${row}` parses back to the cell, even for negative columns and rows |
| ItemIds.CellIdInjective | src/components/grid-txt.jsx:348 | two cells have the same id if and only if they are the same cell, so the id is a sound map key |
| Windowing.EndCol | src/components/grid-txt.jsx:334-335 | the column span holds `2·buffer + 5` or `2·buffer + 6` columns |
| Windowing.EndRow | src/components/grid-txt.jsx:341-342 | the row span holds `2·buffer + 3` or `2·buffer + 4` rows |
| Windowing.StartCol | src/components/grid-txt.jsx:334 | the start column plus the buffer is the column whose card contains `x` |
| Windowing.StartRow | src/components/grid-txt.jsx:341 | the start row plus the buffer is the row whose card contains the effective offset |
| Windowing.ItemAt | src/components/grid-txt.jsx:346-355 | the item of a cell carries the cell, its id, its actual column and row, its column's speed and its image |
| Windowing.VisibleItems | src/components/grid-txt.jsx:331-360 | every listed item lies in the buffered column range |
| Windowing.ColumnSpanCovers | src/components/grid-txt.jsx:334-335 | every column meeting the 100-unit viewport is listed, with `buffer` extra columns each side |
| Windowing.RowSpanCovers | src/components/grid-txt.jsx:341-342 | every row meeting the viewport at the column's effective offset is listed, with `buffer` extra rows each side |
| Windowing.ColumnItemsShape | src/components/grid-txt.jsx:344-356 | a column's items are consecutive rows of that column, each built from its cell as the loop body does |
| Windowing.ColumnsFromCount | src/components/grid-txt.jsx:337-357 | `n` columns list between `n·(2·buffer+3)` and `n·(2·buffer+4)` items |
| Windowing.ColumnsFromSound | src/components/grid-txt.jsx:337-357 | every listed item lies in the column range and in its column's row span, and is the item of its cell |
| Windowing.ColumnsFromComplete | src/components/grid-txt.jsx:337-357 | every cell in the column range and its column's row span is listed |
| Windowing.ColumnsFromUnique | src/components/grid-txt.jsx:337-357 | no cell is listed twice |
| Windowing.FindById | src/components/grid-txt.jsx:105 | `find` by id returns a listed item with that id, or nothing when no listed item has it |
| Windowing.FindByIdFirst | src/components/grid-txt.jsx:105 | like `Array.prototype.find`, the lookup returns the first item with the id |
| Windowing.FindCellInWindow | src/components/grid-txt.jsx:104-105 | looking a cell's id up among the visible items finds that cell's item exactly when the cell is in the window |
| Windowing.WellFormedImages | src/components/grid-txt.jsx:354 | every listed item's image index is its cell's image |
| Windowing.VisibleItemsExact | src/components/grid-txt.jsx:331-360 | a cell is listed if and only if it is in the window, and every listed item is the item of its cell |
| Windowing.VisibleItemsUnique | src/components/grid-txt.jsx:331-360 | listed cells and listed ids are pairwise distinct (React keys and map keys never clash) |
| Windowing.VisibleItemsCount | src/components/grid-txt.jsx:331-360 | the item count is between `(2b+5)(2b+3)` and `(2b+6)(2b+4)` for buffer `b` |
| Windowing.VisibleItemsCountDefault | src/components/grid-txt.jsx:333 | with the buffer of 2, every call lists between 63 and 80 items |
| Windowing.OriginSpans | src/components/grid-txt.jsx:334-342 | at the origin the columns are −2..6 and the rows −2..4 |
| Windowing.OriginWindow | src/components/grid-txt.jsx:331-360 | at the origin every column lists rows −2..4, 63 items in all, whatever the speed table |
| Windowing.OriginColumns | src/components/grid-txt.jsx:337-357 | when every column spans rows −2..4, `n` columns list exactly `7n` items |
| Windowing.PushColumn | src/components/grid-txt.jsx:344-356 | the inner loop appends exactly the column's items to the list |
| Windowing.GenerateVisibleItems | src/components/grid-txt.jsx:331-360 | the nested loops compute the visible items: exactly the window's cells, each once, with its image, 63 to 80 of them |
| MeshPool.Take | src/components/grid-txt.jsx:305-320 | the top pooled mesh is popped, or a new one is built when the pool is empty; it is attached to the scene and bound to the image's texture |
| MeshPool.Give | src/components/grid-txt.jsx:322-329 | the mesh is detached from the scene, pushed onto the pool and reset to the origin, unscaled, keeping its texture |
| MeshPool.Claim | src/components/grid-txt.jsx:427-431 | a cell that had a mesh keeps it and the stock is untouched; a new cell gets a mesh attached to the scene that shows the item's image |
| MeshPool.Aim | src/components/grid-txt.jsx:432-434 | the mesh ends at the item's place on screen; the momentum grids keep its texture and scale, the WebGL grid sets the smooth-mode scale and the item's texture |
| MeshPool.TakeIsUnused | src/components/grid-txt.jsx:305-320 | the mesh taken from an owned pool draws no cell, and the pool keeps no duplicate |
| MeshPool.TakeKeepsOwned | src/components/grid-txt.jsx:305-320 | giving the taken mesh to a new cell keeps ownership: every mesh built is pooled once or draws one cell, and the scene holds the drawing ones |
| MeshPool.TakeShowsOwnCell | src/components/grid-txt.jsx:305-320 | a mesh taken for a cell's image shows that image, and the others keep theirs |
| MeshPool.GiveKeepsOwned | src/components/grid-txt.jsx:322-329 | returning a cell's mesh to the pool keeps ownership and the other meshes' images |
| MeshPool.GiveThenTake | src/components/grid-txt.jsx:305-329 | the pool is a stack: a mesh returned is the next one taken, and the pool is restored |
| MeshPool.TakeThenGive | src/components/grid-txt.jsx:305-329 | taking a pooled mesh and returning it restores the pool, the scene and the count of meshes built |
| MeshPool.PlaceAllKeys | src/components/grid-txt.jsx:426-437 | the new map has exactly the listed cells, and a cell already drawn keeps its mesh |
| MeshPool.PlaceAllStock | src/components/grid-txt.jsx:426-437 | the first loop only pops the pool or builds meshes, one per new cell |
| MeshPool.PlaceAllOwned | src/components/grid-txt.jsx:426-437 | after the first loop, old and new maps together keep ownership and every drawing mesh shows its cell's image |
| MeshPool.PlaceAllPositions | src/components/grid-txt.jsx:432-434 | every listed item's mesh ends at the item's place on screen, and in WebGL at the smooth-mode scale |
| MeshPool.RetextureNeverFires | src/components/InfiniteGridGL.jsx:274-278 | the WebGL grid's texture re-check never changes anything: each claimed mesh already shows its item's image |
| MeshPool.GiveAll | src/components/grid-txt.jsx:439-441 | returning meshes pushes exactly them, in order, onto the pool and builds none |
| MeshPool.GiveAllShape | src/components/grid-txt.jsx:439-441 | returning meshes pushes them in order, detaches them and resets their position and scale, keeping their texture |
| MeshPool.GiveAllOwned | src/components/grid-txt.jsx:439-441 | returning exactly the departed meshes restores ownership for the new map |
| MeshPool.ReconcileKeepsOwned | src/components/grid-txt.jsx:421-444 | one reconcile, in any return order: the new map has exactly the items' cells, staying cells keep their mesh, each mesh is at its item's place, and ownership and images are kept |
| SceneSync.MeshRefs.constructor | src/components/grid-txt.jsx:10-11 | the refs start with nothing built and nothing drawn, which is owned |
| SceneSync.MeshRefs.GetMeshFromPool | src/components/grid-txt.jsx:305-320 | the refs change exactly as `Take` describes, and the active map is untouched |
| SceneSync.MeshRefs.ReturnMeshToPool | src/components/grid-txt.jsx:322-329 | the refs change exactly as `Give` describes, and the active map is untouched |
| SceneSync.MeshRefs.PlaceItems | src/components/grid-txt.jsx:426-437 | the first loop, in place, produces the stock and new map `PlaceAll` describes |
| SceneSync.MeshRefs.ReturnDeparted | src/components/grid-txt.jsx:439-441 | the second loop returns each departed mesh exactly once, in some order |
| SceneSync.MeshRefs.Reconcile | src/components/grid-txt.jsx:421-444 | the effect keeps the ownership invariant; afterwards the active cells are exactly the visible ones, staying cells keep their mesh, and each item's mesh sits at its place; the meshes of the departed cells go back to the pool once each |
| SceneSync.MeshRefs.HoveredItem | src/components/grid-txt.jsx:94-107 | the item found for a hit mesh is the lookup of the id of the cell that mesh draws, or nothing for a mesh that draws no cell |
| SceneSync.ReleasedOnce | src/components/grid-txt.jsx:439-441 | each step of the second loop extends the list of returned meshes without repetition |
| ScrollMotion.Abs | src/components/grid-txt.jsx:163-164 | `Math.abs` is non-negative and equals the value or its negation |
| ScrollMotion.LerpFactor | src/components/grid-txt.jsx:142 | the current position follows the target at 0.25 of the gap while dragging, 0.15 otherwise |
| ScrollMotion.Advance | src/components/grid-txt.jsx:150-155 | while dragging the target and velocity stay; otherwise the target moves by the velocity and the velocity decays by 0.95 |
| ScrollMotion.Noticeable | src/components/grid-txt.jsx:163-164 | a frame that publishes has a gap or a velocity that is not zero |
| ScrollMotion.DragAdjust | src/components/grid-txt.jsx:209-220 | a drag moves the target against the pointer on each axis, and a still pointer moves nothing |
| ScrollMotion.WheelAdjust | src/components/grid-txt.jsx:257-266 | the wheel moves the target with the delta on each axis, and a zero delta moves nothing |
| ScrollMotion.Tick | src/components/grid-txt.jsx:139-169 | a frame moves the kinematics by one `Advance`; it raises the scrolling flag exactly when the gap it started from or the decayed velocity exceeds 0.1 on an axis, publishes the current position when it does, and otherwise keeps the published one |
| ScrollMotion.Ticks | src/components/grid-txt.jsx:139-169 | frames never change the drag flag, the last pointer or smooth mode |
| ScrollMotion.PointerStart | src/components/grid-txt.jsx:181-197 | pressing starts a drag in smooth mode at the pointer and kills the velocity, leaving the positions and the scrolling flag |
| ScrollMotion.PointerMove | src/components/grid-txt.jsx:199-237 | a move outside a drag changes nothing; a drag move shifts the target by the drag adjustment of the pointer's move, sets the velocity to 0.8 of it and records the pointer; positions, flags and the scrolling state stay |
| ScrollMotion.PointerEnd | src/components/grid-txt.jsx:239-251 | releasing ends the drag and smooth mode; the momentum, the positions, the last pointer and the scrolling flag stay, so nothing is published |
| ScrollMotion.Wheel | src/components/grid-txt.jsx:253-278 | the target moves by the wheel adjustment and the velocity grows by 0.3 of that move; pointer, positions and flags stay |
| ScrollMotion.Click | src/components/grid-txt.jsx:280-285 | a click outside a drag switches smooth mode on; during a drag it does nothing |
| ScrollMotion.TicksGlide | src/components/grid-txt.jsx:139-169 | `n` frames move the kinematics exactly as `n` steps of `Advance` |
| ScrollMotion.DragAdvanceClosesGap | src/components/grid-txt.jsx:142-159 | while dragging a frame keeps the target and shrinks the gap to three quarters |
| ScrollMotion.DragConverges | src/components/grid-txt.jsx:142-159 | after `n` dragging frames the gap is `0.75ⁿ` of the first one: the view converges to the target |
| ScrollMotion.IdleAdvance | src/components/grid-txt.jsx:142-159 | an idle frame moves the target by the velocity, decays the velocity by 0.95 and leaves `0.85·gap + velocity` |
| ScrollMotion.IdleVelocityDecays | src/components/grid-txt.jsx:150-155 | after `n` idle frames the velocity is `0.95ⁿ` of the first one |
| ScrollMotion.IdleGlide | src/components/grid-txt.jsx:150-155 | the idle velocity never grows nor changes sign, and the target has moved by 20 times the velocity lost |
| ScrollMotion.GlideBounded | src/components/grid-txt.jsx:150-155 | an idle glide moves the target the velocity's way by at most 20 times the starting velocity |
| ScrollMotion.StillTargetStays | src/components/grid-txt.jsx:150-155 | with no velocity, idle frames never move the target |
| ScrollMotion.AtRestStays | src/components/grid-txt.jsx:139-169 | at rest a frame changes nothing but lowering the scrolling flag |
| ScrollMotion.LargeGapPublished | src/components/grid-txt.jsx:162-165 | a gap over 0.1 on either axis is always published |
| ScrollMotion.DragMovesCompose | src/components/grid-txt.jsx:199-237 | two drag moves put the target where one move to the final pointer would |
| ScrollMotion.DragBackRestores | src/components/grid-txt.jsx:199-237 | dragging to a point and back restores the target |
| ScrollMotion.DragOpposesWheel | src/components/grid-txt.jsx:219-220 | dragging moves opposite to the wheel: the same horizontal amount, and 1/1.6 of the vertical one |
| ScrollMotion.SmoothIsFaster | src/components/grid-txt.jsx:209 | smooth mode multiplies drag and wheel adjustments by 2.5 |
| ScrollMotion.WheelInverse | src/components/grid-txt.jsx:253-278 | a wheel event followed by the opposite event restores the whole state |
| ScrollMotion.WheelsCompose | src/components/grid-txt.jsx:253-278 | two wheel events equal one with the summed delta |
| ScrollMotion.TapStopsGlide | src/components/grid-txt.jsx:181-251 | press and release without moving stops a glide: the target never moves again |
| ScrollMotion.FlingGlide | src/components/grid-txt.jsx:199-251 | after a fling the target keeps going the last move's way, at most 16 times that move farther |
| ScrollMotion.ScrollRefs.constructor | src/components/grid-txt.jsx:13-28 | all positions and velocities start at zero, with no drag and no smooth mode |
| ScrollMotion.ScrollRefs.Frame | src/components/grid-txt.jsx:139-169 | the frame callback updates the refs in place exactly as `Tick` |
| ScrollMotion.ScrollRefs.OnPointerStart | src/components/grid-txt.jsx:181-197 | the handler updates the refs exactly as `PointerStart` |
| ScrollMotion.ScrollRefs.OnPointerMove | src/components/grid-txt.jsx:199-237 | the handler updates the refs as `PointerMove`, and reports whether it was a drag (otherwise hover detection runs) |
| ScrollMotion.ScrollRefs.OnPointerEnd | src/components/grid-txt.jsx:239-251 | the handler updates the refs exactly as `PointerEnd` |
| ScrollMotion.ScrollRefs.OnWheel | src/components/grid-txt.jsx:253-278 | the handler updates the refs exactly as `Wheel` |
| ScrollMotion.ScrollRefs.OnClick | src/components/grid-txt.jsx:280-285 | the handler updates the refs as `Click`, and reports whether the mesh click runs (only outside a drag) |
| SpeedTables.TablesRanked | src/components/grid-txt.jsx:70-79 | every table ranks the actual columns 3 > 2 > 1 > 0 > 4 > 0 and gives 1 outside `[0, 5)` |
| SpeedTables.MomentumSpeed | src/components/grid-txt.jsx:70-79 | the momentum grids give each actual column a speed within 0.06..0.095, and 1 outside `[0, 5)` |
| SpeedTables.GlSpeed | src/components/InfiniteGridGL.jsx:57-66 | the WebGL grid gives each actual column a speed within 0.2..0.4, and 1 outside `[0, 5)` |
| SpeedTables.DomSpeed | src/components/Grid.jsx:54-63 | the DOM grid gives each actual column a speed within 0.6..1.4, and 1 outside `[0, 5)` |
| SpeedTables.WrappedSpeeds | src/components/InfiniteGridGL.jsx:57-66 | through the actual column every logical column's speed is below 0.1 (momentum grids), below 0.5 (WebGL grid) or within 0.6..1.4 (DOM grid) |
| DomGrid.GetVisibleColumns | src/components/Grid.jsx:155-171 | the loop lists exactly `VisibleColumns`: the columns `floor(x/25)-2 .. ceil((x+100)/25)+2`, 9 or 10 of them, each with its actual index in `[0, 5)` |
| DomGrid.VisibleColumns | src/components/Grid.jsx:155-171 | one entry per column from the start column to the end column, in order, each with its actual index in `[0, 5)` and its place `col * 25`; 9 or 10 of them |
| DomGrid.VisibleColumnsExact | src/components/Grid.jsx:155-171 | a column entry is listed exactly when it is its column's entry and the column lies between the start and end columns |
| DomGrid.TileAt | src/components/Grid.jsx:78-87 | a tile belongs to the given actual column and carries its row's actual index, in `[0, 5)` |
| DomGrid.ColumnTiles | src/components/Grid.jsx:66-90 | a column lists one tile per row from the start row to the end row of its effective offset, 11 or 12 of them |
| DomGrid.ColumnTilesExact | src/components/Grid.jsx:72-88 | the tile of a row is listed exactly when the row lies between the start and end rows of the column's effective offset |
| DomGrid.TileRunExact | src/components/Grid.jsx:74-88 | the same at any effective offset |
| DomGrid.ColumnNearViewport | src/components/Grid.jsx:205 | a listed column's `left` lies within three card widths of the viewport |
| DomGrid.TileNearViewport | src/components/Grid.jsx:217 | a listed tile's `top`, at its column's speed, lies within five card heights of the viewport |
| DomGrid.GenerateColumnItems | src/components/Grid.jsx:66-90 | the loop lists the column's tiles for its effective offset, as `ColumnTiles` describes |
| DomGrid.ColumnTilesShape | src/components/Grid.jsx:66-90 | a column lists the consecutive rows from the start row to the end row, 11 or 12 of them, with pairwise distinct ids |
| DomGrid.RowSpanSpare | src/components/Grid.jsx:74-75 | every row meeting the viewport has the four-row buffer on both sides |
| DomGrid.ColumnCoversViewport | src/components/Grid.jsx:66-90 | every row meeting the viewport at the column's own speed is listed |
| DomGrid.OriginRows | src/components/Grid.jsx:74-75 | at the origin every column lists rows −4..6, eleven tiles |
| DomGrid.TileShowsCellImage | src/components/Grid.jsx:228 | a tile shows a valid palette image, the same one the WebGL grids show for that logical cell |
| DomGrid.ColumnsRepeat | src/components/Grid.jsx:196-197 | visible columns five apart list the same tiles |
| DirectScroll.WheelMultiplier | src/components/InfiniteGridGL.jsx:324 | the wheel multiplier is 3 in smooth mode and 1 otherwise |
| DirectScroll.WheelShift | src/components/InfiniteGridGL.jsx:326-329 | the wheel moves by half the delta times the multiplier |
| DirectScroll.Wheel | src/components/InfiniteGridGL.jsx:317-332 | the wheel moves the position by half the delta times the multiplier and raises the scrolling flag |
| DirectScroll.KeySpeed | src/components/InfiniteGridGL.jsx:356 | an arrow key moves 15 units in smooth mode and 5 otherwise |
| DirectScroll.KeyShift | src/components/InfiniteGridGL.jsx:358-369 | the up and left arrows move back and the down and right arrows forward, by the key speed on one axis; any other key moves nothing |
| DirectScroll.KeyDown | src/components/InfiniteGridGL.jsx:355-371 | keys leave the flags alone, and any key but the arrows leaves the state unchanged |
| DirectScroll.Click | src/components/InfiniteGridGL.jsx:335-338 | a click switches smooth mode on and leaves the position |
| DirectScroll.SmoothTimeout | src/components/InfiniteGridGL.jsx:339 | the two-second timer switches smooth mode off and leaves the position |
| DirectScroll.ScrollEnd | src/components/InfiniteGridGL.jsx:343-351 | the 150 ms timer lowers the scrolling flag and leaves the position |
| DirectScroll.KeysMoveOneAxis | src/components/InfiniteGridGL.jsx:355-371 | up and down move only vertically, left and right only horizontally, each by the key speed in its direction |
| DirectScroll.OppositeKeysCancel | src/components/InfiniteGridGL.jsx:355-371 | a key followed by the opposite key restores the state |
| DirectScroll.KeysCommute | src/components/InfiniteGridGL.jsx:355-371 | the order of two key presses does not matter |
| DirectScroll.SmoothKeysTriple | src/components/InfiniteGridGL.jsx:356 | smooth mode makes every key step three times as long |
| DirectScroll.SmoothWheelTriples | src/components/InfiniteGridGL.jsx:324-329 | smooth mode makes every wheel step three times as long |
| DirectScroll.WheelsCompose | src/components/InfiniteGridGL.jsx:317-332 | two wheel events equal one with the summed delta |
| DirectScroll.WheelInverse | src/components/InfiniteGridGL.jsx:317-332 | a wheel event followed by the opposite one restores the position |
| DirectScroll.ClickThenTimeout | src/components/InfiniteGridGL.jsx:335-340 | a click and its timer leave the position and end out of smooth mode |
| DirectScroll.WheelMatchesKey | src/components/InfiniteGridGL.jsx:317-371 | in normal mode ten wheel units down move as far as one down-arrow step |
| TextGrid.HoverOver | src/components/grid-txt.jsx:97-119 | no hit clears the hover; a hit shows the caption of the item found for the hit mesh's cell, or changes nothing when none is found |
| TextGrid.HoverAfter | src/components/grid-txt.jsx:97-119 | no hit clears the hover; a hit with no item found changes nothing; a found item shows its caption and becomes the hovered item |
| TextGrid.HandleMouseMoveAsWritten | src/components/grid-txt.jsx:82-120 | the memoised handler looks up the origin's items: the hovered cell shows its caption only if it is in the origin's window, and otherwise the hover is unchanged |
| TextGrid.HandleMouseMove | src/components/grid-txt.jsx:82-120 | with the lookup over the current items, hovering any drawn mesh shows the caption and item of the cell it draws |
| TextGrid.StaleHoverMisses | src/components/grid-txt.jsx:82-120 | the windows at x = 0 and x = 1000 share no cell, so after that scroll the stale lookup misses cell (40, 0) while the current one finds it |
| TextGrid.Click | src/components/grid-txt.jsx:123-130 | a click moves the motion as `Click`; during a drag it opens nothing, otherwise only the hovered item's non-empty link |
| TextGrid.MeshClickLink | src/components/grid-txt.jsx:123-130 | a link opens exactly when no drag is on, an item is hovered and its image has a non-empty link, and it is that link |
| TextGrid.PointerStart | src/components/grid-txt.jsx:181-197 | pressing starts the drag and clears the caption and hovered item |
| TextGrid.ClickFollowsHover | src/components/grid-txt.jsx:123-130 | a click over a hovered cell opens its image's link, and a click right after pressing opens nothing |

## Left out

- Rendering is not modelled. This covers Three.js scene set-up, camera and renderer, the orthographic projection, the render loop, resizing and cleanup. It is drawing and I/O, with no logic of the grid in it.
- Texture loading, the texture cache and `dispose` are left out. Texture loading is asynchronous I/O. A mesh's texture is modelled as the palette index it is bound to.
- Raycasting and the pointer's normalised device coordinates are left out. The model takes the mesh the ray met first, if any, as a parameter (`hit`).
- `requestAnimationFrame` and the timers are left out. A frame and a timer firing are explicit calls: `Tick`, `SmoothTimeout`, `ScrollEnd`.
- The drag and wheel speed gauge `scrollSpeed` is left out. It uses `Math.sqrt`, `performance.now()` and decay timers, and no rendered quantity in the modelled code reads it.
- JavaScript doubles are modelled as exact reals. Rounding is not modelled.
- `deltaX || 0` is modelled as the delta itself. Only a missing delta, which the model has no value for, differs.
- React batching of `setSmoothScroll` is not modelled. Handlers read the smooth flag of the state they are given.
- Missing DOM and scene refs are left out. The early returns when `sceneRef.current` or `mountRef.current` is null, `getMeshFromPool` returning null, and the DOM grid's `handleScroll` returning when `containerRef.current` is null (Grid.jsx:94) only happen before mount or after unmount.
- `mesh.visible`, the card geometry (0.98 and 0.95 of a card) and materials are left out. They are constant, or set on every path.
- Captions, links and palette file names are parameters: the `captions` and `links` sequences.
- `window.open` is not performed. `TextGrid.Click` returns the link that would open.
- The `'grabbing'` cursor branch of `handleMouseMove` is not modelled. The handler returns early while dragging, so that branch is unreachable.
- The release loop's order is not modelled. It follows JavaScript `Map` insertion order; the model proves its effect for any order of the departed meshes.
- `SceneSync.MeshRefs.ReturnDeparted` states its effect as "some duplicate-free order of the departed meshes" rather than insertion order, for the reason above.
- The DOM grid's markup, CSS transitions and `next/image` are left out. Only column and tile positions are modelled (`ColumnLeft`, `TileTop`).
- Rows at the origin follow the code: the window lists rows −2..4, because `Math.ceil((0 + 100) / 66.67) + 2` is 4.
- Tile ids in the DOM grid follow the code. Ids are built from the actual column (`${actualCol}-${row}`), so they are unique among a column's siblings only, which is all React needs there. Columns are keyed by the logical column.

## Findings

| source | as written | input that shows it | evidently intended | confidence | as-written member | corrected member |
|---|---|---|---|---|---|---|
| src/components/grid-txt.jsx:82-120 | `handleMouseMove` is memoised with an empty dependency list. It keeps calling the first render's `generateVisibleItems`, which lists the items around scroll position (0, 0). | Scroll right to x = 1000. The drawn cells are then in columns 38..46, none in the origin's window. Hover the mesh drawing cell (40, 0): no item is found, and the caption does not change. | The lookup runs over the items of the current scroll position, so every drawn mesh shows its caption. | not executed | TextGrid.HandleMouseMoveAsWritten | TextGrid.HandleMouseMove |
