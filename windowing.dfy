/** Which logical cells `generateVisibleItems` lists for a scroll offset:
    a column range from the horizontal offset, and for every column a row
    range from that column's parallax-scaled vertical offset. */
module Windowing {
  import opened Options
  import opened JsArith
  import opened GridIndex
  import opened ItemIds

  /** `bufferMultiplier` of the three WebGL components. */
  const BUFFER: nat := 2

  /** One element of the array `generateVisibleItems` returns. */
  datatype Item = Item(
    id: string,
    cell: Cell,
    x: real,
    y: real,
    actualCol: int,
    actualRow: int,
    speedMultiplier: real,
    imageIndex: int)

  /** Dividing by 25 is dividing by the card width, and multiplying by
      3/200 is dividing by the card height: the bounds below are written
      with these numerals. */
  lemma CardUnits(r: real)
    ensures r / 25.0 == r / CARD_WIDTH
    ensures r * 3.0 / 200.0 == r / CARD_HEIGHT
  {
  }

  /** `startCol`: the first column whose card meets the viewport, less `buffer`. */
  function StartCol(x: real, buffer: nat): (s: int)
    ensures (s + buffer) as real * 25.0 <= x < (s + buffer + 1) as real * 25.0
  {
    Floor(x / 25.0) - buffer
  }

  /** `endCol`: the last column whose card meets the viewport, plus `buffer`. */
  function EndCol(x: real, buffer: nat): (e: int)
    ensures 2 * buffer + 4 <= e - StartCol(x, buffer) <= 2 * buffer + 5
  {
    Ceil((x + VIEWPORT) / 25.0) + buffer
  }

  /** `startRow` for a column whose effective vertical offset is `e`. */
  function StartRow(e: real, buffer: nat): (s: int)
    ensures (s + buffer) as real * 200.0 / 3.0 <= e < (s + buffer + 1) as real * 200.0 / 3.0
  {
    Floor(e * 3.0 / 200.0) - buffer
  }

  /** `endRow` for a column whose effective vertical offset is `e`. */
  function EndRow(e: real, buffer: nat): (r: int)
    ensures 2 * buffer + 2 <= r - StartRow(e, buffer) <= 2 * buffer + 3
  {
    Ceil((e + VIEWPORT) * 3.0 / 200.0) + buffer
  }

  /** The unbuffered columns `startCol + buffer .. endCol - buffer - 1` are
      exactly those whose cards meet the viewport `[x, x + VIEWPORT]`: the first
      contains `x` and the last reaches the viewport's far edge. */
  lemma ColumnSpanCovers(x: real, buffer: nat)
    ensures (StartCol(x, buffer) + buffer) as real * CARD_WIDTH <= x
    ensures x < (StartCol(x, buffer) + buffer + 1) as real * CARD_WIDTH
    ensures (EndCol(x, buffer) - buffer - 1) as real * CARD_WIDTH < x + VIEWPORT
    ensures x + VIEWPORT <= (EndCol(x, buffer) - buffer) as real * CARD_WIDTH
  {
  }

  /** The same for the rows of a column whose effective offset is `e`. */
  lemma RowSpanCovers(e: real, buffer: nat)
    ensures (StartRow(e, buffer) + buffer) as real * CARD_HEIGHT <= e
    ensures e < (StartRow(e, buffer) + buffer + 1) as real * CARD_HEIGHT
    ensures (EndRow(e, buffer) - buffer - 1) as real * CARD_HEIGHT < e + VIEWPORT
    ensures e + VIEWPORT <= (EndRow(e, buffer) - buffer) as real * CARD_HEIGHT
  {
  }

  /** The item listed for logical cell (`col`, `row`) in a column moving at `speed`. */
  function MakeItem(col: int, row: int, speed: real): Item {
    var actualCol := ActualCol(col);
    var actualRow := ActualRow(row);
    Item(CellId(Cell(col, row)), Cell(col, row), col as real * CARD_WIDTH, row as real * CARD_HEIGHT,
         actualCol, actualRow, speed, ImageIndex(actualCol, actualRow))
  }

  /** The item for cell `c` when the column speeds come from `table`. */
  function ItemAt(c: Cell, table: int -> real): (it: Item)
    ensures it.cell == c && it.id == CellId(c) && it.imageIndex == CellImage(c)
    ensures it.actualCol == ActualCol(c.col) && it.actualRow == ActualRow(c.row)
    ensures it.speedMultiplier == table(it.actualCol)
  {
    MakeItem(c.col, c.row, table(ActualCol(c.col)))
  }

  /** The effective vertical offset of column `col`: `y * speedMultiplier`. */
  function Effective(col: int, y: real, table: int -> real): real {
    y * table(ActualCol(col))
  }

  /** The first row listed in column `col`. */
  function FirstRow(col: int, y: real, table: int -> real, buffer: nat): int {
    StartRow(Effective(col, y, table), buffer)
  }

  /** The last row listed in column `col`. */
  function LastRow(col: int, y: real, table: int -> real, buffer: nat): int {
    EndRow(Effective(col, y, table), buffer)
  }

  /** The items of column `col` moving at `speed` when its effective offset
      is `e`, top row first. */
  function RowRun(col: int, e: real, speed: real, buffer: nat): seq<Item> {
    var start := StartRow(e, buffer);
    seq(EndRow(e, buffer) - start + 1, k => MakeItem(col, start + k, speed))
  }

  /** The items of one column, top row first. */
  function ColumnItems(col: int, y: real, table: int -> real, buffer: nat): seq<Item> {
    RowRun(col, Effective(col, y, table), table(ActualCol(col)), buffer)
  }

  /** The items of the `n` columns starting at `first`, column by column. */
  function ColumnsFrom(first: int, n: nat, y: real, table: int -> real, buffer: nat): seq<Item>
    decreases n
  {
    if n == 0 then []
    else ColumnsFrom(first, n - 1, y, table, buffer) + ColumnItems(first + n - 1, y, table, buffer)
  }

  /** Everything `generateVisibleItems` lists at offset (`x`, `y`). */
  function VisibleItems(x: real, y: real, table: int -> real, buffer: nat): (items: seq<Item>)
    ensures forall it | it in items :: StartCol(x, buffer) <= it.cell.col <= EndCol(x, buffer)
  {
    ColumnsFromCols(StartCol(x, buffer), EndCol(x, buffer) - StartCol(x, buffer) + 1, y, table, buffer);
    ColumnsFrom(StartCol(x, buffer), EndCol(x, buffer) - StartCol(x, buffer) + 1, y, table, buffer)
  }

  /** Cell `c` lies in its column's row range. */
  ghost predicate InRows(c: Cell, y: real, table: int -> real, buffer: nat) {
    FirstRow(c.col, y, table, buffer) <= c.row <= LastRow(c.col, y, table, buffer)
  }

  /** Cell `c` lies in the visible window at offset (`x`, `y`). */
  ghost predicate InWindow(c: Cell, x: real, y: real, table: int -> real, buffer: nat) {
    StartCol(x, buffer) <= c.col <= EndCol(x, buffer) && InRows(c, y, table, buffer)
  }

  function CellsOf(items: seq<Item>): set<Cell> {
    set it | it in items :: it.cell
  }

  ghost predicate UniqueCells(items: seq<Item>) {
    forall i, j :: 0 <= i < j < |items| ==> items[i].cell != items[j].cell
  }

  ghost predicate UniqueIds(items: seq<Item>) {
    forall i, j :: 0 <= i < j < |items| ==> items[i].id != items[j].id
  }

  /** Every item describes its own cell: id, position, wrapped indices, speed and image. */
  ghost predicate WellFormed(items: seq<Item>, table: int -> real) {
    forall it :: it in items ==> it == ItemAt(it.cell, table)
  }

  /** A column lists `2b+3` or `2b+4` consecutive rows, top row first, each
      item describing its own cell. */
  lemma ColumnItemsShape(col: int, y: real, table: int -> real, buffer: nat)
    ensures |ColumnItems(col, y, table, buffer)| == LastRow(col, y, table, buffer) - FirstRow(col, y, table, buffer) + 1
    ensures 2 * buffer + 3 <= |ColumnItems(col, y, table, buffer)| <= 2 * buffer + 4
    ensures forall k :: 0 <= k < |ColumnItems(col, y, table, buffer)| ==>
      ColumnItems(col, y, table, buffer)[k].cell == Cell(col, FirstRow(col, y, table, buffer) + k)
    ensures forall it :: it in ColumnItems(col, y, table, buffer) ==>
      it.cell.col == col && InRows(it.cell, y, table, buffer) && it == ItemAt(it.cell, table)
  {
    var items := ColumnItems(col, y, table, buffer);
    var start := FirstRow(col, y, table, buffer);
    assert |items| == LastRow(col, y, table, buffer) - start + 1;
    forall k | 0 <= k < |items|
      ensures items[k].cell == Cell(col, start + k)
      ensures items[k] == ItemAt(items[k].cell, table)
    {
      assert items[k] == MakeItem(col, start + k, table(ActualCol(col)));
    }
  }

  lemma {:induction false} ColumnsFromCount(first: int, n: nat, y: real, table: int -> real, buffer: nat)
    ensures n * (2 * buffer + 3) <= |ColumnsFrom(first, n, y, table, buffer)| <= n * (2 * buffer + 4)
    decreases n
  {
    if n > 0 {
      ColumnsFromCount(first, n - 1, y, table, buffer);
      ColumnItemsShape(first + n - 1, y, table, buffer);
      assert n * (2 * buffer + 3) == (n - 1) * (2 * buffer + 3) + (2 * buffer + 3);
      assert n * (2 * buffer + 4) == (n - 1) * (2 * buffer + 4) + (2 * buffer + 4);
    }
  }

  lemma {:induction false} ColumnsFromSound(first: int, n: nat, y: real, table: int -> real, buffer: nat)
    ensures forall it :: it in ColumnsFrom(first, n, y, table, buffer) ==>
      first <= it.cell.col < first + n && InRows(it.cell, y, table, buffer) && it == ItemAt(it.cell, table)
    decreases n
  {
    if n > 0 {
      var prev := ColumnsFrom(first, n - 1, y, table, buffer);
      var block := ColumnItems(first + n - 1, y, table, buffer);
      var items := ColumnsFrom(first, n, y, table, buffer);
      assert items == prev + block;
      ColumnsFromSound(first, n - 1, y, table, buffer);
      ColumnItemsShape(first + n - 1, y, table, buffer);
      forall it | it in items
        ensures first <= it.cell.col < first + n && InRows(it.cell, y, table, buffer)
        ensures it == ItemAt(it.cell, table)
      {
        if it !in prev {
          var k :| 0 <= k < |block| && block[k] == it;
        }
      }
    }
  }

  lemma {:induction false} ColumnsFromComplete(first: int, n: nat, y: real, table: int -> real, buffer: nat, c: Cell)
    requires first <= c.col < first + n && InRows(c, y, table, buffer)
    ensures c in CellsOf(ColumnsFrom(first, n, y, table, buffer))
    decreases n
  {
    var prev := ColumnsFrom(first, n - 1, y, table, buffer);
    var block := ColumnItems(first + n - 1, y, table, buffer);
    assert ColumnsFrom(first, n, y, table, buffer) == prev + block;
    if c.col < first + n - 1 {
      ColumnsFromComplete(first, n - 1, y, table, buffer, c);
      var it :| it in prev && it.cell == c;
      assert it in prev + block;
    } else {
      ColumnItemsShape(c.col, y, table, buffer);
      var start := FirstRow(c.col, y, table, buffer);
      var it := block[c.row - start];
      assert it.cell == c;
      assert it in prev + block;
    }
  }

  lemma {:induction false} ColumnsFromUnique(first: int, n: nat, y: real, table: int -> real, buffer: nat)
    ensures UniqueCells(ColumnsFrom(first, n, y, table, buffer))
    decreases n
  {
    if n > 0 {
      var prev := ColumnsFrom(first, n - 1, y, table, buffer);
      var block := ColumnItems(first + n - 1, y, table, buffer);
      assert ColumnsFrom(first, n, y, table, buffer) == prev + block;
      ColumnsFromUnique(first, n - 1, y, table, buffer);
      ColumnsFromCols(first, n - 1, y, table, buffer);
      ColumnItemsCells(first + n - 1, y, table, buffer);
      UniqueConcat(prev, block, first + n - 1);
    }
  }

  /** The items of `n` columns from `first` lie in those columns. */
  lemma {:induction false} ColumnsFromCols(first: int, n: nat, y: real, table: int -> real, buffer: nat)
    ensures forall it | it in ColumnsFrom(first, n, y, table, buffer) :: first <= it.cell.col < first + n
    decreases n
  {
    if n > 0 {
      var prev := ColumnsFrom(first, n - 1, y, table, buffer);
      var block := ColumnItems(first + n - 1, y, table, buffer);
      assert ColumnsFrom(first, n, y, table, buffer) == prev + block;
      ColumnsFromCols(first, n - 1, y, table, buffer);
      ColumnItemsCells(first + n - 1, y, table, buffer);
    }
  }

  /** A column's items are cells of that column, no two alike. */
  lemma ColumnItemsCells(col: int, y: real, table: int -> real, buffer: nat)
    ensures forall it | it in ColumnItems(col, y, table, buffer) :: it.cell.col == col
    ensures UniqueCells(ColumnItems(col, y, table, buffer))
  {
    var items := ColumnItems(col, y, table, buffer);
    var start := FirstRow(col, y, table, buffer);
    forall k | 0 <= k < |items|
      ensures items[k].cell == Cell(col, start + k)
    {
    }
  }

  /** Two lists without repeated cells join into one when every cell of the
      first lies left of column `col` and every cell of the second in it. */
  lemma UniqueConcat(prev: seq<Item>, block: seq<Item>, col: int)
    requires UniqueCells(prev) && UniqueCells(block)
    requires forall a | a in prev :: a.cell.col < col
    requires forall b | b in block :: b.cell.col == col
    ensures UniqueCells(prev + block)
  {
    var items := prev + block;
    forall i, j | 0 <= i < j < |items|
      ensures items[i].cell != items[j].cell
    {
      if j < |prev| {
        assert items[i] == prev[i] && items[j] == prev[j];
      } else if i < |prev| {
        assert items[i] == prev[i] && items[i] in prev;
        assert items[j] == block[j - |prev|] && items[j] in block;
      } else {
        assert items[i] == block[i - |prev|] && items[j] == block[j - |prev|];
      }
    }
  }

  /** `items.find(item => item.id === id)`: the first item with that id. */
  function FindById(items: seq<Item>, id: string): (r: Option<Item>)
    ensures r.Some? ==> r.value in items && r.value.id == id
    ensures r.None? ==> forall it | it in items :: it.id != id
  {
    if items == [] then None
    else if items[0].id == id then Some(items[0])
    else FindById(items[1..], id)
  }

  /** Like `Array.prototype.find`, the lookup returns the first item with
      the id. */
  lemma {:induction false} FindByIdFirst(items: seq<Item>, id: string, i: nat)
    requires i < |items| && items[i].id == id
    requires forall j :: 0 <= j < i ==> items[j].id != id
    ensures FindById(items, id) == Some(items[i])
    decreases i
  {
    if i > 0 {
      assert items[0].id != id;
      FindByIdFirst(items[1..], id, i - 1);
    }
  }

  /** In the list for offset (`x`, `y`) the id of a cell of the window finds
      that cell's item, and the id of any other cell finds nothing. */
  lemma FindCellInWindow(x: real, y: real, table: int -> real, c: Cell)
    ensures InWindow(c, x, y, table, BUFFER) ==>
      FindById(VisibleItems(x, y, table, BUFFER), CellId(c)) == Some(ItemAt(c, table))
    ensures !InWindow(c, x, y, table, BUFFER) ==>
      FindById(VisibleItems(x, y, table, BUFFER), CellId(c)) == None
  {
    var items := VisibleItems(x, y, table, BUFFER);
    VisibleItemsExact(x, y, table, BUFFER);
    var r := FindById(items, CellId(c));
    if r.Some? {
      CellIdInjective(r.value.cell, c);
      assert r.value.cell in CellsOf(items);
    }
  }

  /** A well-formed item shows its own cell's image. */
  lemma WellFormedImages(items: seq<Item>, table: int -> real)
    requires WellFormed(items, table)
    ensures forall it | it in items :: it.imageIndex == CellImage(it.cell)
  {
  }

  /** The listed cells are exactly the cells of the window, each item
      describing its own cell. */
  lemma VisibleItemsExact(x: real, y: real, table: int -> real, buffer: nat)
    ensures forall c :: c in CellsOf(VisibleItems(x, y, table, buffer)) <==> InWindow(c, x, y, table, buffer)
    ensures WellFormed(VisibleItems(x, y, table, buffer), table)
  {
    var first := StartCol(x, buffer);
    var n := EndCol(x, buffer) - first + 1;
    assert VisibleItems(x, y, table, buffer) == ColumnsFrom(first, n, y, table, buffer);
    ColumnsFromExact(first, n, y, table, buffer);
  }

  /** The items of `n` columns from `first` are exactly the cells of those
      columns' row ranges, each describing its own cell. */
  lemma ColumnsFromExact(first: int, n: nat, y: real, table: int -> real, buffer: nat)
    ensures forall c :: c in CellsOf(ColumnsFrom(first, n, y, table, buffer)) <==>
      first <= c.col < first + n && InRows(c, y, table, buffer)
    ensures WellFormed(ColumnsFrom(first, n, y, table, buffer), table)
  {
    var items := ColumnsFrom(first, n, y, table, buffer);
    ColumnsFromSound(first, n, y, table, buffer);
    forall c
      ensures c in CellsOf(items) <==> first <= c.col < first + n && InRows(c, y, table, buffer)
    {
      if first <= c.col < first + n && InRows(c, y, table, buffer) {
        ColumnsFromComplete(first, n, y, table, buffer, c);
      }
      if c in CellsOf(items) {
        var it :| it in items && it.cell == c;
      }
    }
  }

  /** No cell, and hence no id, is listed twice. */
  lemma VisibleItemsUnique(x: real, y: real, table: int -> real, buffer: nat)
    ensures UniqueCells(VisibleItems(x, y, table, buffer))
    ensures UniqueIds(VisibleItems(x, y, table, buffer))
  {
    var first := StartCol(x, buffer);
    var n := EndCol(x, buffer) - first + 1;
    assert VisibleItems(x, y, table, buffer) == ColumnsFrom(first, n, y, table, buffer);
    ColumnsFromDistinct(first, n, y, table, buffer);
  }

  /** The items of `n` columns from `first` repeat no cell and no id. */
  lemma ColumnsFromDistinct(first: int, n: nat, y: real, table: int -> real, buffer: nat)
    ensures UniqueCells(ColumnsFrom(first, n, y, table, buffer))
    ensures UniqueIds(ColumnsFrom(first, n, y, table, buffer))
  {
    ColumnsFromUnique(first, n, y, table, buffer);
    ColumnsFromWellFormed(first, n, y, table, buffer);
    IdsFollowCells(ColumnsFrom(first, n, y, table, buffer), table);
  }

  /** Every item of `n` columns describes its own cell. */
  lemma ColumnsFromWellFormed(first: int, n: nat, y: real, table: int -> real, buffer: nat)
    ensures WellFormed(ColumnsFrom(first, n, y, table, buffer), table)
  {
    ColumnsFromSound(first, n, y, table, buffer);
  }

  /** Well-formed items with distinct cells have distinct ids. */
  lemma IdsFollowCells(items: seq<Item>, table: int -> real)
    requires WellFormed(items, table) && UniqueCells(items)
    ensures UniqueIds(items)
  {
    forall i, j | 0 <= i < j < |items|
      ensures items[i].id != items[j].id
    {
      assert items[i] in items && items[j] in items;
      assert items[i].id == CellId(items[i].cell) && items[j].id == CellId(items[j].cell);
      CellIdInjective(items[i].cell, items[j].cell);
    }
  }

  /** However far the grid has been scrolled, the number of items stays
      between (2b+5)(2b+3) and (2b+6)(2b+4): 63 to 80 with the buffer of 2. */
  lemma VisibleItemsCount(x: real, y: real, table: int -> real, buffer: nat)
    ensures (2 * buffer + 5) * (2 * buffer + 3) <= |VisibleItems(x, y, table, buffer)|
    ensures |VisibleItems(x, y, table, buffer)| <= (2 * buffer + 6) * (2 * buffer + 4)
  {
    var first := StartCol(x, buffer);
    var n := EndCol(x, buffer) - first + 1;
    assert VisibleItems(x, y, table, buffer) == ColumnsFrom(first, n, y, table, buffer);
    ColumnsFromCount(first, n, y, table, buffer);
    CountBetween(n, buffer, |ColumnsFrom(first, n, y, table, buffer)|);
  }

  /** Between `n(2b+3)` and `n(2b+4)` items over `2b+5` to `2b+6` columns
      make between `(2b+5)(2b+3)` and `(2b+6)(2b+4)`. */
  lemma CountBetween(n: int, buffer: nat, count: int)
    requires 2 * buffer + 5 <= n <= 2 * buffer + 6
    requires n * (2 * buffer + 3) <= count <= n * (2 * buffer + 4)
    ensures (2 * buffer + 5) * (2 * buffer + 3) <= count <= (2 * buffer + 6) * (2 * buffer + 4)
  {
    MulMonotone(2 * buffer + 5, n, 2 * buffer + 3);
    MulMonotone(n, 2 * buffer + 6, 2 * buffer + 4);
  }

  /** Multiplying by a natural number keeps the order. */
  lemma MulMonotone(a: int, b: int, c: nat)
    requires a <= b
    ensures a * c <= b * c
  {
    assert b * c - a * c == (b - a) * c;
  }

  /** With the buffer of 2 that is 63 to 80 items. */
  lemma VisibleItemsCountDefault(x: real, y: real, table: int -> real)
    ensures 63 <= |VisibleItems(x, y, table, BUFFER)| <= 80
  {
    VisibleItemsCount(x, y, table, BUFFER);
  }

  /** With no scroll, the column range is -2..6 and the row range -2..4. */
  lemma OriginSpans()
    ensures StartCol(0.0, BUFFER) == -2 && EndCol(0.0, BUFFER) == 6
    ensures StartRow(0.0, BUFFER) == -2 && EndRow(0.0, BUFFER) == 4
  {
    assert (0.0 + VIEWPORT) * 3.0 / 200.0 == 1.5;
    assert Ceil(1.5) == 2;
  }

  /** At the origin the window is columns -2..6 and, in every column, rows -2..4. */
  lemma OriginWindow(table: int -> real)
    ensures StartCol(0.0, BUFFER) == -2 && EndCol(0.0, BUFFER) == 6
    ensures forall col :: FirstRow(col, 0.0, table, BUFFER) == -2 && LastRow(col, 0.0, table, BUFFER) == 4
    ensures |VisibleItems(0.0, 0.0, table, BUFFER)| == 63
  {
    OriginSpans();
    forall col
      ensures FirstRow(col, 0.0, table, BUFFER) == -2 && LastRow(col, 0.0, table, BUFFER) == 4
    {
      assert Effective(col, 0.0, table) == 0.0;
    }
    OriginColumns(-2, 9, table);
  }

  lemma {:induction false} OriginColumns(first: int, n: nat, table: int -> real)
    requires forall col :: FirstRow(col, 0.0, table, BUFFER) == -2 && LastRow(col, 0.0, table, BUFFER) == 4
    ensures |ColumnsFrom(first, n, 0.0, table, BUFFER)| == 7 * n
    decreases n
  {
    if n > 0 {
      OriginColumns(first, n - 1, table);
      assert FirstRow(first + n - 1, 0.0, table, BUFFER) == -2;
      assert LastRow(first + n - 1, 0.0, table, BUFFER) == 4;
    }
  }

  /** The inner loop of `generateVisibleItems`: push the items of column
      `col`, row by row, onto `items`. */
  method PushColumn(items: seq<Item>, col: int, y: real, table: int -> real) returns (result: seq<Item>)
    ensures result == items + ColumnItems(col, y, table, BUFFER)
  {
    result := items;
    var actualCol := Wrap(col, COLS);
    var speedMultiplier := table(actualCol);
    var effectiveScrollY := y * speedMultiplier;
    assert actualCol == ActualCol(col) && effectiveScrollY == Effective(col, y, table);
    var startRow := StartRow(effectiveScrollY, BUFFER);
    var endRow := EndRow(effectiveScrollY, BUFFER);
    ghost var block := RowRun(col, effectiveScrollY, speedMultiplier, BUFFER);
    assert |block| == endRow - startRow + 1;
    var row := startRow;
    while row <= endRow
      invariant startRow <= row <= endRow + 1
      invariant result == items + block[..row - startRow]
    {
      var actualRow := Wrap(row, ROWS);
      assert actualRow == ActualRow(row);
      result := result + [Item(CellId(Cell(col, row)), Cell(col, row), col as real * CARD_WIDTH,
                               row as real * CARD_HEIGHT, actualCol, actualRow, speedMultiplier,
                               ImageIndex(actualCol, actualRow))];
      assert block[row - startRow] == MakeItem(col, row, speedMultiplier);
      assert block[..row + 1 - startRow] == block[..row - startRow] + [block[row - startRow]];
      row := row + 1;
    }
    assert block[..row - startRow] == block;
  }

  /** `generateVisibleItems`: for every column of the window, every row of
      that column's range, one item. */
  method GenerateVisibleItems(x: real, y: real, table: int -> real) returns (items: seq<Item>)
    ensures items == VisibleItems(x, y, table, BUFFER)
    ensures WellFormed(items, table) && UniqueCells(items) && UniqueIds(items)
    ensures forall c :: c in CellsOf(items) <==> InWindow(c, x, y, table, BUFFER)
    ensures 63 <= |items| <= 80
  {
    items := [];
    var startCol := StartCol(x, BUFFER);
    var endCol := EndCol(x, BUFFER);
    var col := startCol;
    while col <= endCol
      invariant startCol <= col <= endCol + 1
      invariant items == ColumnsFrom(startCol, col - startCol, y, table, BUFFER)
    {
      items := PushColumn(items, col, y, table);
      ColumnsFromAppend(startCol, col, y, table, BUFFER);
      col := col + 1;
    }
    VisibleItemsExact(x, y, table, BUFFER);
    VisibleItemsUnique(x, y, table, BUFFER);
    VisibleItemsCountDefault(x, y, table);
  }

  /** One more column appends that column's items. */
  lemma ColumnsFromAppend(first: int, col: int, y: real, table: int -> real, buffer: nat)
    requires first <= col
    ensures ColumnsFrom(first, col + 1 - first, y, table, buffer) ==
      ColumnsFrom(first, col - first, y, table, buffer) + ColumnItems(col, y, table, buffer)
  {
  }
}
