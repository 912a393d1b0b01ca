/** Grid configuration and the pure index arithmetic shared by all four grid
    components: logical cells, their wrapped ("actual") cells, and the image
    each one shows. */
module GridIndex {
  import opened JsArith

  const ROWS := 5
  const COLS := 5
  /** `imageSources.length`: the palette holds 25 images. */
  const PALETTE_SIZE := 25
  /** The viewport measures 100 units on each axis. */
  const VIEWPORT := 100.0
  const VISIBLE_COLS := 4.0
  const VISIBLE_ROWS := 1.5
  /** `cardWidth = 100 / VISIBLE_COLS`, written as a numeral. */
  const CARD_WIDTH: real := 25.0
  /** `cardHeight = 100 / VISIBLE_ROWS`, written as a quotient of numerals. */
  const CARD_HEIGHT: real := 200.0 / 3.0

  /** The card sizes are the viewport split into the visible columns and rows. */
  lemma CardSizes()
    ensures CARD_WIDTH == VIEWPORT / VISIBLE_COLS && CARD_HEIGHT == VIEWPORT / VISIBLE_ROWS
  {
  }

  /** A logical cell: unbounded, possibly negative, column and row. */
  datatype Cell = Cell(col: int, row: int)

  /** `((col % COLS) + COLS) % COLS` */
  function ActualCol(col: int): (a: int)
    ensures 0 <= a < COLS
    ensures a == col % COLS
  {
    WrapIsEuclidean(col, COLS);
    Wrap(col, COLS)
  }

  /** `((row % ROWS) + ROWS) % ROWS` */
  function ActualRow(row: int): (a: int)
    ensures 0 <= a < ROWS
    ensures a == row % ROWS
  {
    WrapIsEuclidean(row, ROWS);
    Wrap(row, ROWS)
  }

  /** `(actualCol * ROWS + actualRow) % imageSources.length` */
  function ImageIndex(actualCol: int, actualRow: int): (i: int)
    ensures actualCol * ROWS + actualRow >= 0 ==> 0 <= i < PALETTE_SIZE
  {
    JsRem(actualCol * ROWS + actualRow, PALETTE_SIZE)
  }

  /** The image shown at a logical cell. */
  function CellImage(c: Cell): (i: int)
    ensures 0 <= i < PALETTE_SIZE
  {
    ImageIndex(ActualCol(c.col), ActualRow(c.row))
  }

  /** Within one period the palette is laid out row-major without repeats:
      every image index names exactly one actual cell. */
  lemma ImageIndexTiles(actualCol: int, actualRow: int)
    requires 0 <= actualCol < COLS && 0 <= actualRow < ROWS
    ensures ImageIndex(actualCol, actualRow) == actualCol * ROWS + actualRow
    ensures ImageIndex(actualCol, actualRow) / ROWS == actualCol
    ensures ImageIndex(actualCol, actualRow) % ROWS == actualRow
  {
  }

  /** Two logical cells show the same image exactly when they lie a whole
      number of periods apart on both axes. */
  lemma CellImageIffCongruent(c1: Cell, c2: Cell)
    ensures CellImage(c1) == CellImage(c2) <==>
            (c1.col - c2.col) % COLS == 0 && (c1.row - c2.row) % ROWS == 0
  {
    ImageIndexTiles(ActualCol(c1.col), ActualRow(c1.row));
    ImageIndexTiles(ActualCol(c2.col), ActualRow(c2.row));
    CongruentIffSameMod(c1.col, c2.col, COLS);
    CongruentIffSameMod(c1.row, c2.row, ROWS);
  }

  /** Revisiting a cell shifted by whole periods yields the same image. */
  lemma CellImagePeriodic(c: Cell, i: int, j: int)
    ensures CellImage(Cell(c.col + i * COLS, c.row + j * ROWS)) == CellImage(c)
  {
    WrapPeriodic(c.col, i, COLS);
    WrapPeriodic(c.row, j, ROWS);
  }
}
