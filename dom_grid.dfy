/**
 * The DOM image grid: instead of one flat list of items it renders the
 * visible columns, and inside each column a run of tiles listed for the
 * column's actual (wrapped) index with a wider row buffer of 4. Tiles are
 * absolutely positioned relative to the scroll position, each column
 * moving vertically at its own speed.
 */
module DomGrid {
  import opened JsArith
  import opened GridIndex
  import opened ItemIds
  import opened Windowing
  import opened SpeedTables

  /** `bufferMultiplier` of `getVisibleColumns`. */
  const COLUMN_BUFFER: nat := 2
  /** `bufferMultiplier` of `generateColumnItems`. */
  const ROW_BUFFER: nat := 4

  /** One entry of `getVisibleColumns`. */
  datatype Column = Column(col: int, actualCol: int, x: real)

  /** One entry of `generateColumnItems`. */
  datatype Tile = Tile(id: string, y: real, actualCol: int, actualRow: int)

  /** The column entry for logical column `col`. */
  function ColumnAt(col: int): Column {
    Column(col, ActualCol(col), col as real * CARD_WIDTH)
  }

  /** The columns listed at horizontal offset `x`, left to right. */
  function VisibleColumns(x: real): (cs: seq<Column>)
    ensures |cs| == EndCol(x, COLUMN_BUFFER) - StartCol(x, COLUMN_BUFFER) + 1
    ensures 2 * COLUMN_BUFFER + 5 <= |cs| <= 2 * COLUMN_BUFFER + 6
    ensures forall k :: 0 <= k < |cs| ==>
      cs[k].col == StartCol(x, COLUMN_BUFFER) + k && cs[k].actualCol == ActualCol(cs[k].col) && 0 <= cs[k].actualCol < COLS
    ensures forall k :: 0 <= k < |cs| ==> cs[k].x == cs[k].col as real * CARD_WIDTH
  {
    var start := StartCol(x, COLUMN_BUFFER);
    var cs := seq(EndCol(x, COLUMN_BUFFER) - start + 1, k => ColumnAt(start + k));
    assert forall k :: 0 <= k < |cs| ==> cs[k] == ColumnAt(start + k);
    cs
  }

  /** The effective vertical offset of the column with actual index
      `actualCol`. */
  function ColumnOffset(actualCol: int, y: real): real {
    y * DomSpeed(actualCol)
  }

  /** The tile for `row` in the column with actual index `actualCol`. */
  function TileAt(actualCol: int, row: int): (t: Tile)
    ensures t.actualCol == actualCol && t.actualRow == ActualRow(row) && 0 <= t.actualRow < ROWS
  {
    Tile(CellId(Cell(actualCol, row)), row as real * CARD_HEIGHT, actualCol, ActualRow(row))
  }

  /** The tiles of the column with actual index `actualCol` when its
      effective offset is `e`, top row first. */
  function TileRun(actualCol: int, e: real): seq<Tile> {
    var start := StartRow(e, ROW_BUFFER);
    seq(EndRow(e, ROW_BUFFER) - start + 1, k => TileAt(actualCol, start + k))
  }

  /** The tiles listed for the column with actual index `actualCol` at
      vertical offset `y`, top row first. */
  function ColumnTiles(actualCol: int, y: real): (ts: seq<Tile>)
    ensures |ts| == EndRow(ColumnOffset(actualCol, y), ROW_BUFFER) - StartRow(ColumnOffset(actualCol, y), ROW_BUFFER) + 1
    ensures 2 * ROW_BUFFER + 3 <= |ts| <= 2 * ROW_BUFFER + 4
  {
    TileRunShape(actualCol, ColumnOffset(actualCol, y));
    TileRun(actualCol, ColumnOffset(actualCol, y))
  }

  /** The image a tile shows, `(actualCol * ROWS + actualRow) % length`. */
  function TileImage(t: Tile): int {
    ImageIndex(t.actualCol, t.actualRow)
  }

  /** The horizontal place of a column on screen. */
  function ColumnLeft(c: Column, x: real): real {
    c.x - x
  }

  /** The vertical place of a tile on screen, its column moving at `speed`. */
  function TileTop(t: Tile, y: real, speed: real): real {
    t.y - y * speed
  }

  /** A listed column sits on screen (`left` of its style) within three
      card widths of the viewport: the two buffer columns and the partly
      visible one on either side. */
  lemma ColumnNearViewport(x: real, k: int)
    requires 0 <= k < |VisibleColumns(x)|
    ensures -75.0 < ColumnLeft(VisibleColumns(x)[k], x) <= VIEWPORT + 75.0
  {
    var s := StartCol(x, COLUMN_BUFFER);
    assert VisibleColumns(x)[k] == ColumnAt(s + k);
    assert (s + k) as real * CARD_WIDTH == s as real * 25.0 + k as real * 25.0;
  }

  /** A listed tile sits on screen (`top` of its style, its column moving at
      the column's speed) within five card heights of the viewport: the four
      buffer rows and the partly visible one on either side. */
  lemma TileNearViewport(actualCol: int, y: real, t: Tile)
    requires t in ColumnTiles(actualCol, y)
    ensures -5.0 * 200.0 / 3.0 < TileTop(t, y, DomSpeed(actualCol)) < VIEWPORT + 5.0 * 200.0 / 3.0
  {
    TileRunNearViewport(actualCol, ColumnOffset(actualCol, y), t);
  }

  /** The same for the run at any effective offset `e`. */
  lemma TileRunNearViewport(actualCol: int, e: real, t: Tile)
    requires t in TileRun(actualCol, e)
    ensures -5.0 * 200.0 / 3.0 < t.y - e < VIEWPORT + 5.0 * 200.0 / 3.0
  {
    var tiles := TileRun(actualCol, e);
    var s := StartRow(e, ROW_BUFFER);
    var k :| 0 <= k < |tiles| && tiles[k] == t;
    var row := s + k;
    assert t == TileAt(actualCol, row);
    RowNearViewport(e, row);
  }

  /** A row of the run at offset `e` has its card within five card heights
      of the viewport. */
  lemma RowNearViewport(e: real, row: int)
    requires StartRow(e, ROW_BUFFER) <= row <= EndRow(e, ROW_BUFFER)
    ensures -5.0 * 200.0 / 3.0 < row as real * CARD_HEIGHT - e < VIEWPORT + 5.0 * 200.0 / 3.0
  {
    var c := Ceil((e + VIEWPORT) * 3.0 / 200.0);
    assert row <= c + 4;
    assert (c - 1) as real < (e + VIEWPORT) * 3.0 / 200.0;
    assert row as real * CARD_HEIGHT == row as real * 200.0 / 3.0;
  }

  /** `getVisibleColumns`: one entry per column of the buffered span. */
  method GetVisibleColumns(x: real) returns (columns: seq<Column>)
    ensures columns == VisibleColumns(x)
    ensures 9 <= |columns| <= 10
    ensures forall k :: 0 <= k < |columns| ==> columns[k].col == StartCol(x, COLUMN_BUFFER) + k
    ensures forall k :: 0 <= k < |columns| ==> 0 <= columns[k].actualCol < COLS
  {
    var startCol := StartCol(x, COLUMN_BUFFER);
    var endCol := EndCol(x, COLUMN_BUFFER);
    columns := [];
    var col := startCol;
    while col <= endCol
      invariant startCol <= col <= endCol + 1
      invariant |columns| == col - startCol
      invariant forall k :: 0 <= k < |columns| ==> columns[k] == ColumnAt(startCol + k)
    {
      var actualCol := Wrap(col, COLS);
      assert actualCol == ActualCol(col);
      columns := columns + [Column(col, actualCol, col as real * CARD_WIDTH)];
      assert columns[col - startCol] == ColumnAt(col);
      col := col + 1;
    }
    assert |columns| == |VisibleColumns(x)|;
    assert forall k :: 0 <= k < |columns| ==> columns[k] == VisibleColumns(x)[k];
  }

  /** `generateColumnItems`: one tile per row of the buffered span of the
      column's effective offset. */
  method GenerateColumnItems(actualCol: int, y: real) returns (items: seq<Tile>)
    ensures items == ColumnTiles(actualCol, y)
  {
    items := [];
    var speedMultiplier := DomSpeed(actualCol);
    var effectiveScrollY := y * speedMultiplier;
    assert effectiveScrollY == ColumnOffset(actualCol, y);
    var startRow := StartRow(effectiveScrollY, ROW_BUFFER);
    var endRow := EndRow(effectiveScrollY, ROW_BUFFER);
    ghost var tiles := TileRun(actualCol, effectiveScrollY);
    assert |tiles| == endRow - startRow + 1;
    var row := startRow;
    while row <= endRow
      invariant startRow <= row <= endRow + 1
      invariant items == tiles[..row - startRow]
    {
      var actualRow := Wrap(row, ROWS);
      assert actualRow == ActualRow(row);
      items := items + [Tile(CellId(Cell(actualCol, row)), row as real * CARD_HEIGHT, actualCol, actualRow)];
      assert tiles[row - startRow] == TileAt(actualCol, row);
      assert tiles[..row + 1 - startRow] == tiles[..row - startRow] + [tiles[row - startRow]];
      row := row + 1;
    }
    assert tiles[..row - startRow] == tiles;
  }

  /** A column lists 11 or 12 tiles, one per consecutive row, with distinct
      ids (they are React keys among siblings). */
  lemma ColumnTilesShape(actualCol: int, y: real)
    ensures |ColumnTiles(actualCol, y)|
         == EndRow(ColumnOffset(actualCol, y), ROW_BUFFER) - StartRow(ColumnOffset(actualCol, y), ROW_BUFFER) + 1
    ensures 2 * ROW_BUFFER + 3 <= |ColumnTiles(actualCol, y)| <= 2 * ROW_BUFFER + 4
    ensures forall k :: 0 <= k < |ColumnTiles(actualCol, y)| ==>
      ColumnTiles(actualCol, y)[k] == TileAt(actualCol, StartRow(ColumnOffset(actualCol, y), ROW_BUFFER) + k)
    ensures forall i, j :: 0 <= i < j < |ColumnTiles(actualCol, y)| ==>
      ColumnTiles(actualCol, y)[i].id != ColumnTiles(actualCol, y)[j].id
  {
    TileRunShape(actualCol, ColumnOffset(actualCol, y));
  }

  /** The same for the run at any effective offset `e`. */
  lemma TileRunShape(actualCol: int, e: real)
    ensures |TileRun(actualCol, e)| == EndRow(e, ROW_BUFFER) - StartRow(e, ROW_BUFFER) + 1
    ensures 2 * ROW_BUFFER + 3 <= |TileRun(actualCol, e)| <= 2 * ROW_BUFFER + 4
    ensures forall k :: 0 <= k < |TileRun(actualCol, e)| ==>
      TileRun(actualCol, e)[k] == TileAt(actualCol, StartRow(e, ROW_BUFFER) + k)
    ensures forall i, j :: 0 <= i < j < |TileRun(actualCol, e)| ==>
      TileRun(actualCol, e)[i].id != TileRun(actualCol, e)[j].id
  {
    var tiles := TileRun(actualCol, e);
    var start := StartRow(e, ROW_BUFFER);
    TileIdsDistinct(actualCol);
    forall i, j | 0 <= i < j < |tiles|
      ensures tiles[i].id != tiles[j].id
    {
      assert tiles[i] == TileAt(actualCol, start + i) && tiles[j] == TileAt(actualCol, start + j);
    }
  }

  /** Tiles of different rows of one column have different ids. */
  lemma TileIdsDistinct(actualCol: int)
    ensures forall r1, r2 :: r1 != r2 ==> TileAt(actualCol, r1).id != TileAt(actualCol, r2).id
  {
    forall r1, r2 | r1 != r2
      ensures TileAt(actualCol, r1).id != TileAt(actualCol, r2).id
    {
      CellIdInjective(Cell(actualCol, r1), Cell(actualCol, r2));
    }
  }

  /** A column entry is listed at offset `x` exactly when it is the entry of
      its own logical column and that column lies in the buffered span
      `StartCol .. EndCol`. */
  lemma VisibleColumnsExact(x: real, c: Column)
    ensures c in VisibleColumns(x) <==>
      c == ColumnAt(c.col) && StartCol(x, COLUMN_BUFFER) <= c.col <= EndCol(x, COLUMN_BUFFER)
  {
    var cs := VisibleColumns(x);
    var start := StartCol(x, COLUMN_BUFFER);
    if c in cs {
      var k :| 0 <= k < |cs| && cs[k] == c;
      assert cs[k] == ColumnAt(start + k);
    }
    if c == ColumnAt(c.col) && start <= c.col <= EndCol(x, COLUMN_BUFFER) {
      assert cs[c.col - start] == ColumnAt(c.col);
    }
  }

  /** The tile of `row` is listed in its column exactly when the row lies in
      the buffered span `StartRow .. EndRow` of the column's effective
      offset. */
  lemma ColumnTilesExact(actualCol: int, y: real, row: int)
    ensures TileAt(actualCol, row) in ColumnTiles(actualCol, y) <==>
      StartRow(ColumnOffset(actualCol, y), ROW_BUFFER) <= row <= EndRow(ColumnOffset(actualCol, y), ROW_BUFFER)
  {
    TileRunExact(actualCol, ColumnOffset(actualCol, y), row);
  }

  /** The same for the run at any effective offset `e`. */
  lemma TileRunExact(actualCol: int, e: real, row: int)
    ensures TileAt(actualCol, row) in TileRun(actualCol, e) <==> StartRow(e, ROW_BUFFER) <= row <= EndRow(e, ROW_BUFFER)
  {
    var tiles := TileRun(actualCol, e);
    var start := StartRow(e, ROW_BUFFER);
    if TileAt(actualCol, row) in tiles {
      var k :| 0 <= k < |tiles| && tiles[k] == TileAt(actualCol, row);
      TileAtInjective(actualCol, start + k, row);
    }
    if start <= row <= EndRow(e, ROW_BUFFER) {
      assert tiles[row - start] == TileAt(actualCol, row);
    }
  }

  /** One column's tiles of different rows differ. */
  lemma TileAtInjective(actualCol: int, r1: int, r2: int)
    requires TileAt(actualCol, r1) == TileAt(actualCol, r2)
    ensures r1 == r2
  {
    CellIdInjective(Cell(actualCol, r1), Cell(actualCol, r2));
  }

  /** At effective offset `e`, every row whose card meets the viewport lies
      inside the buffered span with at least four rows to spare either side. */
  lemma RowSpanSpare(e: real, row: int)
    requires e < (row + 1) as real * CARD_HEIGHT
    requires row as real * CARD_HEIGHT < e + VIEWPORT
    ensures StartRow(e, ROW_BUFFER) + ROW_BUFFER <= row <= EndRow(e, ROW_BUFFER) - ROW_BUFFER - 1
  {
    RowSpanCovers(e, ROW_BUFFER);
    CardsOrdered(StartRow(e, ROW_BUFFER) + ROW_BUFFER, row + 1);
    CardsOrdered(row, EndRow(e, ROW_BUFFER) - ROW_BUFFER);
  }

  /** Every row whose card meets the viewport, as the column sees it, is
      listed in that column. */
  lemma ColumnCoversViewport(actualCol: int, y: real, row: int)
    requires ColumnOffset(actualCol, y) < (row + 1) as real * CARD_HEIGHT
    requires row as real * CARD_HEIGHT < ColumnOffset(actualCol, y) + VIEWPORT
    ensures TileAt(actualCol, row) in ColumnTiles(actualCol, y)
  {
    var e := ColumnOffset(actualCol, y);
    RowSpanSpare(e, row);
    assert TileRun(actualCol, e)[row - StartRow(e, ROW_BUFFER)] == TileAt(actualCol, row);
  }

  /** Cards are laid out in row order: a row whose card starts above
      another's comes before it. */
  lemma CardsOrdered(a: int, b: int)
    requires a as real * CARD_HEIGHT < b as real * CARD_HEIGHT
    ensures a < b
  {
  }

  /** At the origin every column lists rows -4 through 6. */
  lemma OriginRows(actualCol: int)
    ensures StartRow(ColumnOffset(actualCol, 0.0), ROW_BUFFER) == -4
    ensures EndRow(ColumnOffset(actualCol, 0.0), ROW_BUFFER) == 6
    ensures |ColumnTiles(actualCol, 0.0)| == 11
  {
    assert ColumnOffset(actualCol, 0.0) == 0.0;
    assert (0.0 + VIEWPORT) * 3.0 / 200.0 == 1.5;
    assert Ceil(1.5) == 2;
  }

  /** A tile shows an image of the palette, and the very image the WebGL
      grids show at the same logical cell: the DOM grid and the WebGL grids
      agree on the picture. */
  lemma TileShowsCellImage(column: Column, y: real, t: Tile)
    requires column == ColumnAt(column.col)
    requires t in ColumnTiles(column.actualCol, y)
    ensures 0 <= TileImage(t) < PALETTE_SIZE
    ensures exists row :: t == TileAt(column.actualCol, row) && TileImage(t) == CellImage(Cell(column.col, row))
  {
    var tiles := ColumnTiles(column.actualCol, y);
    var k :| 0 <= k < |tiles| && tiles[k] == t;
    var row := StartRow(ColumnOffset(column.actualCol, y), ROW_BUFFER) + k;
    assert t == TileAt(column.actualCol, row);
    assert TileImage(t) == CellImage(Cell(column.col, row));
  }

  /** Two visible columns five apart list the same tiles: the grid repeats
      horizontally with period five. */
  lemma ColumnsRepeat(x: real, y: real, i: int, j: int)
    requires 0 <= i < |VisibleColumns(x)| && 0 <= j < |VisibleColumns(x)|
    requires j - i == COLS
    ensures ColumnTiles(VisibleColumns(x)[i].actualCol, y) == ColumnTiles(VisibleColumns(x)[j].actualCol, y)
  {
    var start := StartCol(x, COLUMN_BUFFER);
    var cols := VisibleColumns(x);
    assert cols[i] == ColumnAt(start + i);
    assert cols[j] == ColumnAt(start + i + 1 * COLS);
    WrapPeriodic(start + i, 1, COLS);
  }
}
