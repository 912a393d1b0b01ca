/**
 * The direct scrolling of the WebGL grid and the DOM image grid: the wheel
 * and the arrow keys move the published scroll position itself (no
 * interpolation, no momentum), a click switches on a faster "smooth" mode
 * for two seconds, and the scrolling flag drops 150 ms after it was raised.
 * Each handler is a functional state update, so the model is a pure step
 * function per handler.
 */
module DirectScroll {
  import opened Planar

  /** The `scrollPosition`, `isScrolling` and `smoothScroll` state. */
  datatype View = View(position: Vec, scrolling: bool, smoothScroll: bool)

  /** The keys the keyboard handler looks at; every other key is `Other`. */
  datatype Key = ArrowUp | ArrowDown | ArrowLeft | ArrowRight | Other

  /** The state on mount. */
  const Initial := View(Origin, false, false)

  /** The wheel multiplier: 3 in smooth mode, 1 otherwise. */
  function WheelMultiplier(smooth: bool): (k: real)
    ensures k == (if smooth then 3.0 else 1.0)
  {
    if smooth then 3.0 else 1.0
  }

  /** The position change of a wheel event: half the wheel delta times the
      multiplier, along both axes. */
  function WheelShift(d: Vec, smooth: bool): (v: Vec)
    ensures v == d.Scale(0.5 * WheelMultiplier(smooth))
  {
    if smooth then Vec(d.x * 3.0 * 0.5, d.y * 3.0 * 0.5)
    else Vec(d.x * 1.0 * 0.5, d.y * 1.0 * 0.5)
  }

  /** `handleScroll`: move by the wheel shift and raise the scrolling flag. */
  function Wheel(v: View, d: Vec): (r: View)
    ensures r.scrolling && r.smoothScroll == v.smoothScroll
    ensures r.position == v.position.Plus(d.Scale(0.5 * WheelMultiplier(v.smoothScroll)))
  {
    v.(position := v.position.Plus(WheelShift(d, v.smoothScroll)), scrolling := true)
  }

  /** The step of an arrow key: 15 in smooth mode, 5 otherwise. */
  function KeySpeed(smooth: bool): (s: real)
    ensures s == (if smooth then 15.0 else 5.0)
  {
    if smooth then 15.0 else 5.0
  }

  /** The position change of a key: up and left decrease, down and right
      increase, by the key speed; other keys do nothing. */
  function KeyShift(k: Key, smooth: bool): (v: Vec)
    ensures k == Other ==> v == Origin
    ensures (k == ArrowUp || k == ArrowDown) ==> v.x == 0.0 && (v.y == KeySpeed(smooth) || v.y == -KeySpeed(smooth))
    ensures (k == ArrowLeft || k == ArrowRight) ==> v.y == 0.0 && (v.x == KeySpeed(smooth) || v.x == -KeySpeed(smooth))
    ensures (k == ArrowUp ==> v.y < 0.0) && (k == ArrowDown ==> v.y > 0.0)
    ensures (k == ArrowLeft ==> v.x < 0.0) && (k == ArrowRight ==> v.x > 0.0)
  {
    var s := KeySpeed(smooth);
    match k
    case ArrowUp => Vec(0.0, -s)
    case ArrowDown => Vec(0.0, s)
    case ArrowLeft => Vec(-s, 0.0)
    case ArrowRight => Vec(s, 0.0)
    case Other => Origin
  }

  /** `handleKeyDown`: move the position by the key's shift. The flags are
      left alone. */
  function KeyDown(v: View, k: Key): (r: View)
    ensures r.scrolling == v.scrolling && r.smoothScroll == v.smoothScroll
    ensures k == Other ==> r == v
  {
    v.(position := v.position.Plus(KeyShift(k, v.smoothScroll)))
  }

  /** `handleClick`: switch smooth mode on. */
  function Click(v: View): (r: View)
    ensures r.smoothScroll && r.position == v.position && r.scrolling == v.scrolling
  {
    v.(smoothScroll := true)
  }

  /** The timer a click starts: two seconds later smooth mode is off again. */
  function SmoothTimeout(v: View): (r: View)
    ensures !r.smoothScroll && r.position == v.position && r.scrolling == v.scrolling
  {
    v.(smoothScroll := false)
  }

  /** The timer raising the scrolling flag starts: 150 ms later it drops. */
  function ScrollEnd(v: View): (r: View)
    ensures !r.scrolling && r.position == v.position && r.smoothScroll == v.smoothScroll
  {
    v.(scrolling := false)
  }

  /** The key that undoes a key. */
  function Opposite(k: Key): Key {
    match k
    case ArrowUp => ArrowDown
    case ArrowDown => ArrowUp
    case ArrowLeft => ArrowRight
    case ArrowRight => ArrowLeft
    case Other => Other
  }

  /** Up and down move only vertically, left and right only horizontally,
      and each by exactly the key speed, in the stated sense. */
  lemma KeysMoveOneAxis(v: View, k: Key)
    ensures (k == ArrowUp || k == ArrowDown) ==> KeyDown(v, k).position.x == v.position.x
    ensures (k == ArrowLeft || k == ArrowRight) ==> KeyDown(v, k).position.y == v.position.y
    ensures k == ArrowUp ==> KeyDown(v, k).position.y == v.position.y - KeySpeed(v.smoothScroll)
    ensures k == ArrowDown ==> KeyDown(v, k).position.y == v.position.y + KeySpeed(v.smoothScroll)
    ensures k == ArrowLeft ==> KeyDown(v, k).position.x == v.position.x - KeySpeed(v.smoothScroll)
    ensures k == ArrowRight ==> KeyDown(v, k).position.x == v.position.x + KeySpeed(v.smoothScroll)
  {
  }

  /** A key followed by its opposite returns to the same state. */
  lemma OppositeKeysCancel(v: View, k: Key)
    ensures KeyDown(KeyDown(v, k), Opposite(k)) == v
  {
  }

  /** Key presses commute: the position after two keys does not depend on
      their order. */
  lemma KeysCommute(v: View, k1: Key, k2: Key)
    ensures KeyDown(KeyDown(v, k1), k2) == KeyDown(KeyDown(v, k2), k1)
  {
  }

  /** Smooth mode makes every key step three times as long. */
  lemma SmoothKeysTriple(k: Key)
    ensures KeyShift(k, true) == KeyShift(k, false).Scale(3.0)
  {
  }

  /** Smooth mode makes every wheel step three times as long. */
  lemma SmoothWheelTriples(d: Vec)
    ensures WheelShift(d, true) == WheelShift(d, false).Scale(3.0)
  {
  }

  /** Two wheel events in the same mode move as far as one with the summed
      delta. */
  lemma WheelsCompose(v: View, d1: Vec, d2: Vec)
    ensures Wheel(Wheel(v, d1), d2) == Wheel(v, d1.Plus(d2))
  {
  }

  /** A wheel event undone by the opposite one restores the position. */
  lemma WheelInverse(v: View, d: Vec)
    ensures Wheel(Wheel(v, d), Origin.Minus(d)).position == v.position
  {
  }

  /** A click and its timer leave the position alone and end out of smooth
      mode, whatever the mode was. */
  lemma ClickThenTimeout(v: View)
    ensures SmoothTimeout(Click(v)) == v.(smoothScroll := false)
  {
  }

  /** In the normal mode, ten wheel units down (with a zero horizontal
      delta) move as far as one step of the down arrow. */
  lemma WheelMatchesKey(v: View)
    requires !v.smoothScroll
    ensures Wheel(v, Vec(0.0, 10.0)).position == KeyDown(v, ArrowDown).position
  {
  }
}
