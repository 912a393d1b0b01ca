/**
 * The per-column parallax speeds of the four grids. Each grid has its
 * own `getColumnSpeedMultiplier` switch on the actual column; all share the
 * same ranking (fourth column fastest, then third, second, first, fifth)
 * and the same default of 1 for any other value.
 */
module SpeedTables {
  import opened GridIndex

  /** The text grid's and the image grid's table: very slow columns. */
  function MomentumSpeed(actualCol: int): (s: real)
    ensures 0 <= actualCol < COLS ==> 0.06 <= s <= 0.095
    ensures (actualCol < 0 || actualCol >= COLS) ==> s == 1.0
  {
    match actualCol
    case 3 => 0.095
    case 2 => 0.09
    case 1 => 0.08
    case 0 => 0.07
    case 4 => 0.06
    case _ => 1.0
  }

  /** The WebGL grid's table. */
  function GlSpeed(actualCol: int): (s: real)
    ensures 0 <= actualCol < COLS ==> 0.2 <= s <= 0.4
    ensures (actualCol < 0 || actualCol >= COLS) ==> s == 1.0
  {
    match actualCol
    case 3 => 0.4
    case 2 => 0.35
    case 1 => 0.3
    case 0 => 0.25
    case 4 => 0.2
    case _ => 1.0
  }

  /** The DOM grid's table: columns faster and slower than the scroll. */
  function DomSpeed(actualCol: int): (s: real)
    ensures 0 <= actualCol < COLS ==> 0.6 <= s <= 1.4
    ensures (actualCol < 0 || actualCol >= COLS) ==> s == 1.0
  {
    match actualCol
    case 3 => 1.4
    case 2 => 1.2
    case 1 => 1.0
    case 0 => 0.8
    case 4 => 0.6
    case _ => 1.0
  }

  /** The ranking every table follows, and its default outside `[0, COLS)`. */
  ghost predicate Ranked(table: int -> real) {
    table(3) > table(2) > table(1) > table(0) > table(4) > 0.0
    && forall c :: (c < 0 || c >= COLS) ==> table(c) == 1.0
  }

  /** All tables rank the columns the same way and fall back to 1. */
  lemma TablesRanked()
    ensures Ranked(MomentumSpeed) && Ranked(GlSpeed) && Ranked(DomSpeed)
  {
  }

  /** The speed a logical column gets through its actual index: the WebGL
      grids' columns all trail the scroll (below 0.1 and 0.5 of it), the DOM
      grid's lie between 0.6 and 1.4 of it. */
  lemma WrappedSpeeds(col: int)
    ensures 0.0 < MomentumSpeed(ActualCol(col)) < 0.1
    ensures 0.0 < GlSpeed(ActualCol(col)) < 0.5
    ensures 0.6 <= DomSpeed(ActualCol(col)) <= 1.4
  {
    var a := ActualCol(col);
    assert a == 0 || a == 1 || a == 2 || a == 3 || a == 4;
  }
}
