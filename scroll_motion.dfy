/**
 * The momentum scrolling shared by the text grid and the image grid: a
 * target position that input moves, a current position that follows it by
 * linear interpolation once per animation frame, and a velocity that keeps
 * the target gliding (and decaying) after the pointer is released. Only the
 * current position is published to the rendered grid, and only when the
 * frame moved it noticeably.
 */
module ScrollMotion {
  import opened Planar

  /** Everything the scrolling keeps between events: the `targetScrollPosition`,
      `currentScrollPosition`, `scrollVelocity`, `isDragging`, `lastPointer`
      and `isScrolling` refs, and the `smoothScroll` and `scrollPosition` state. */
  datatype Motion = Motion(
    target: Vec,
    current: Vec,
    velocity: Vec,
    dragging: bool,
    lastPointer: Vec,
    smoothScroll: bool,
    scrollPosition: Vec,
    scrolling: bool)

  function Abs(r: real): (a: real)
    ensures a >= 0.0 && (a == r || a == -r)
  {
    if r < 0.0 then -r else r
  }

  /** The three moving quantities: the target input moves, the current
      position that follows it, and the velocity that keeps the target going. */
  datatype Kinematics = Kinematics(target: Vec, current: Vec, velocity: Vec)

  function Kin(m: Motion): Kinematics {
    Kinematics(m.target, m.current, m.velocity)
  }

  /** How far the current position lags behind the target. */
  function Gap(k: Kinematics): Vec {
    k.target.Minus(k.current)
  }

  /** The share of the gap one frame closes: snappier while dragging. */
  function LerpFactor(dragging: bool): (f: real)
    ensures 0.0 < f < 1.0
    ensures dragging ==> f == 0.25
    ensures !dragging ==> f == 0.15
  {
    if dragging then 0.25 else 0.15
  }

  /** The movement of one frame: the current position closes the lerp share
      of the gap measured first; an idle target also glides by the velocity,
      which then decays to 0.95 of itself. */
  function Advance(k: Kinematics, dragging: bool): (r: Kinematics)
    ensures dragging ==> r.target == k.target && r.velocity == k.velocity
    ensures !dragging ==> r.target == k.target.Plus(k.velocity) && r.velocity == k.velocity.Scale(0.95)
  {
    if dragging then
      Kinematics(k.target, k.current.Plus(Gap(k).Scale(0.25)), k.velocity)
    else
      Kinematics(k.target.Plus(k.velocity), k.current.Plus(Gap(k).Scale(0.15)), k.velocity.Scale(0.95))
  }

  /** `n` frames of movement. */
  function Glide(k: Kinematics, dragging: bool, n: nat): Kinematics {
    if n == 0 then k else Advance(Glide(k, dragging, n - 1), dragging)
  }

  /** A frame is worth publishing when the gap it started from, or the
      (already decayed) velocity, exceeds 0.1 on either axis. */
  predicate Noticeable(delta: Vec, velocity: Vec)
    ensures Noticeable(delta, velocity) ==> delta != Origin || velocity != Origin
  {
    Abs(delta.x) > 0.1 || Abs(delta.y) > 0.1 || Abs(velocity.x) > 0.1 || Abs(velocity.y) > 0.1
  }

  /** One animation frame: move, then publish the current position if the
      frame was noticeable, and record whether it was. */
  function Tick(m: Motion): (r: Motion)
    ensures Kin(r) == Advance(Kin(m), m.dragging)
    ensures r.scrolling == Noticeable(Gap(Kin(m)), r.velocity)
    ensures r.dragging == m.dragging && r.lastPointer == m.lastPointer && r.smoothScroll == m.smoothScroll
    ensures r.scrolling ==> r.scrollPosition == r.current
    ensures !r.scrolling ==> r.scrollPosition == m.scrollPosition
  {
    var k := Advance(Kin(m), m.dragging);
    var moved := Noticeable(Gap(Kin(m)), k.velocity);
    m.(target := k.target, velocity := k.velocity, current := k.current,
       scrollPosition := if moved then k.current else m.scrollPosition,
       scrolling := moved)
  }

  /** `n` consecutive frames with no input in between. */
  function Ticks(m: Motion, n: nat): (r: Motion)
    ensures r.dragging == m.dragging && r.lastPointer == m.lastPointer && r.smoothScroll == m.smoothScroll
  {
    if n == 0 then m else Tick(Ticks(m, n - 1))
  }

  /** `b` to the power `n`. */
  function Pow(b: real, n: nat): real {
    if n == 0 then 1.0 else b * Pow(b, n - 1)
  }

  /** Pointer down (mouse or first touch): start dragging from `p`, stop any
      glide, and switch to the faster multiplier. */
  function PointerStart(m: Motion, p: Vec): (r: Motion)
    ensures r.dragging && r.smoothScroll && r.lastPointer == p && r.velocity == Origin
    ensures r.target == m.target && r.current == m.current && r.scrollPosition == m.scrollPosition
    ensures r.scrolling == m.scrolling
  {
    m.(dragging := true, lastPointer := p, velocity := Origin, smoothScroll := true)
  }

  /** The target displacement for a pointer that moved by `d` while dragging:
      against the pointer, 0.05 per pixel across and 0.25 per pixel down,
      times 2.5 in smooth mode. */
  function DragAdjust(d: Vec, smooth: bool): (a: Vec)
    ensures d.x > 0.0 ==> a.x < 0.0
    ensures d.x < 0.0 ==> a.x > 0.0
    ensures d.y > 0.0 ==> a.y < 0.0
    ensures d.y < 0.0 ==> a.y > 0.0
    ensures d == Origin ==> a == Origin
  {
    if smooth then Vec(-d.x * 2.5 * 0.05, -d.y * 2.5 * 0.25)
    else Vec(-d.x * 1.0 * 0.05, -d.y * 1.0 * 0.25)
  }

  /** Pointer move: ignored (for the scrolling) unless dragging; otherwise
      the target moves by the drag displacement, the velocity becomes 0.8 of
      it, and the pointer is remembered. */
  function PointerMove(m: Motion, p: Vec): (r: Motion)
    ensures !m.dragging ==> r == m
    ensures m.dragging ==> r.target == m.target.Plus(DragAdjust(p.Minus(m.lastPointer), m.smoothScroll))
    ensures m.dragging ==> r.lastPointer == p && r.velocity == DragAdjust(p.Minus(m.lastPointer), m.smoothScroll).Scale(0.8)
    ensures r.current == m.current && r.dragging == m.dragging && r.smoothScroll == m.smoothScroll
    ensures r.scrollPosition == m.scrollPosition && r.scrolling == m.scrolling
  {
    if !m.dragging then m
    else
      var adjust := DragAdjust(p.Minus(m.lastPointer), m.smoothScroll);
      m.(target := m.target.Plus(adjust), velocity := adjust.Scale(0.8), lastPointer := p)
  }

  /** Pointer up, cancel or leave: stop dragging and leave smooth mode; the
      velocity of the last move is kept and becomes the glide. */
  function PointerEnd(m: Motion): (r: Motion)
    ensures !r.dragging && !r.smoothScroll
    ensures r.target == m.target && r.current == m.current && r.velocity == m.velocity
    ensures r.lastPointer == m.lastPointer && r.scrollPosition == m.scrollPosition && r.scrolling == m.scrolling
  {
    m.(dragging := false, smoothScroll := false)
  }

  /** The target displacement of a wheel event: with the wheel, 0.05 per unit
      across and 0.4 per unit down, times 2.5 in smooth mode. */
  function WheelAdjust(d: Vec, smooth: bool): (a: Vec)
    ensures d.x > 0.0 ==> a.x > 0.0
    ensures d.x < 0.0 ==> a.x < 0.0
    ensures d.y > 0.0 ==> a.y > 0.0
    ensures d.y < 0.0 ==> a.y < 0.0
    ensures d == Origin ==> a == Origin
  {
    if smooth then Vec(d.x * 2.5 * 0.05, d.y * 2.5 * 0.4)
    else Vec(d.x * 1.0 * 0.05, d.y * 1.0 * 0.4)
  }

  /** Wheel: the target moves by the wheel displacement and 0.3 of it is
      added to the velocity. */
  function Wheel(m: Motion, d: Vec): (r: Motion)
    ensures r.target == m.target.Plus(WheelAdjust(d, m.smoothScroll))
    ensures r.velocity.Minus(m.velocity) == r.target.Minus(m.target).Scale(0.3)
    ensures r.current == m.current && r.dragging == m.dragging && r.smoothScroll == m.smoothScroll
    ensures r.lastPointer == m.lastPointer && r.scrollPosition == m.scrollPosition && r.scrolling == m.scrolling
  {
    var adjust := WheelAdjust(d, m.smoothScroll);
    m.(target := m.target.Plus(adjust), velocity := m.velocity.Plus(adjust.Scale(0.3)))
  }

  /** Click: outside a drag it switches smooth mode on. */
  function Click(m: Motion): (r: Motion)
    ensures m.dragging ==> r == m
    ensures !m.dragging ==> r == m.(smoothScroll := true)
  {
    if m.dragging then m else m.(smoothScroll := true)
  }

  // ---------------------------------------------------------------- frames

  /** Frames with no input in between move the view as the frame movement
      repeated. */
  lemma {:induction false} TicksGlide(m: Motion, n: nat)
    ensures Kin(Ticks(m, n)) == Glide(Kin(m), m.dragging, n)
  {
    if n > 0 {
      TicksGlide(m, n - 1);
    }
  }

  /** While dragging, a frame leaves the target alone and closes a quarter
      of the gap. */
  lemma DragAdvanceClosesGap(k: Kinematics)
    ensures Advance(k, true).target == k.target
    ensures Gap(Advance(k, true)) == Gap(k).Scale(0.75)
  {
  }

  /** Scaling by `b` and then by `a` is scaling by `a * b`. */
  lemma ScaleTwice(v: Vec, a: real, b: real)
    ensures v.Scale(b).Scale(a) == v.Scale(a * b)
  {
    assert a * (b * v.x) == (a * b) * v.x;
    assert a * (b * v.y) == (a * b) * v.y;
  }

  /** While dragging, after `n` frames the gap is `0.75^n` of what it was:
      the view converges on the dragged target. */
  lemma {:induction false} DragConverges(k: Kinematics, n: nat)
    ensures Glide(k, true, n).target == k.target
    ensures Gap(Glide(k, true, n)) == Gap(k).Scale(Pow(0.75, n))
  {
    if n == 0 {
      assert Gap(k).Scale(1.0) == Gap(k);
    } else {
      DragConverges(k, n - 1);
      DragAdvanceClosesGap(Glide(k, true, n - 1));
      ScaleTwice(Gap(k), 0.75, Pow(0.75, n - 1));
    }
  }

  /** With no drag, a frame keeps 0.85 of the gap and widens it by the
      velocity (the target glides first), and the velocity decays to 0.95. */
  lemma IdleAdvance(k: Kinematics)
    ensures Advance(k, false).velocity == k.velocity.Scale(0.95)
    ensures Advance(k, false).target == k.target.Plus(k.velocity)
    ensures Gap(Advance(k, false)) == Gap(k).Scale(0.85).Plus(k.velocity)
  {
  }

  /** After `n` idle frames the velocity is `0.95^n` of the release velocity. */
  lemma {:induction false} IdleVelocityDecays(k: Kinematics, n: nat)
    ensures Glide(k, false, n).velocity == k.velocity.Scale(Pow(0.95, n))
  {
    if n == 0 {
      assert k.velocity.Scale(1.0) == k.velocity;
    } else {
      IdleVelocityDecays(k, n - 1);
      IdleAdvance(Glide(k, false, n - 1));
      ScaleTwice(k.velocity, 0.95, Pow(0.95, n - 1));
    }
  }

  /** `b` lies between 0 and `a`, whatever the sign of `a`. */
  predicate Toward(b: real, a: real) {
    (a >= 0.0 ==> 0.0 <= b <= a) && (a <= 0.0 ==> a <= b <= 0.0)
  }

  /** After `n` idle frames the velocity still points the way it did and
      is no larger, and the target has glided 20 times the velocity lost. */
  lemma {:induction false} IdleGlide(k: Kinematics, n: nat)
    ensures Toward(Glide(k, false, n).velocity.x, k.velocity.x)
    ensures Toward(Glide(k, false, n).velocity.y, k.velocity.y)
    ensures Glide(k, false, n).target == k.target.Plus(k.velocity.Minus(Glide(k, false, n).velocity).Scale(20.0))
  {
    if n > 0 {
      IdleGlide(k, n - 1);
      IdleAdvance(Glide(k, false, n - 1));
    }
  }

  /** However many idle frames run, a glide carries the target the way the
      velocity points, and at most 20 times as far as the velocity. */
  lemma GlideBounded(k: Kinematics, n: nat)
    ensures Toward(Glide(k, false, n).target.x - k.target.x, 20.0 * k.velocity.x)
    ensures Toward(Glide(k, false, n).target.y - k.target.y, 20.0 * k.velocity.y)
  {
    IdleGlide(k, n);
  }

  /** With no drag and no velocity, frames never move the target. */
  lemma {:induction false} StillTargetStays(k: Kinematics, n: nat)
    requires k.velocity == Origin
    ensures Glide(k, false, n).target == k.target
    ensures Glide(k, false, n).velocity == Origin
  {
    if n > 0 {
      StillTargetStays(k, n - 1);
      IdleAdvance(Glide(k, false, n - 1));
    }
  }

  /** With no gap and no velocity a frame moves nothing. */
  lemma AdvanceAtRest(k: Kinematics, dragging: bool)
    requires k.target == k.current && k.velocity == Origin
    ensures Advance(k, dragging) == k
  {
    assert Gap(k) == Origin;
    if dragging {
      assert Gap(k).Scale(0.25) == Origin;
    } else {
      assert Gap(k).Scale(0.15) == Origin && k.velocity.Scale(0.95) == Origin;
    }
  }

  /** No gap and no velocity is not worth publishing. */
  lemma StillIsQuiet()
    ensures !Noticeable(Origin, Origin)
  {
    assert Origin.x == 0.0 && Origin.y == 0.0;
  }

  /** A view at rest (caught up, no velocity) stays put and reports that it
      is not scrolling. */
  lemma AtRestStays(m: Motion)
    requires m.target == m.current && m.velocity == Origin
    ensures Tick(m) == m.(scrolling := false)
  {
    var k := Kin(m);
    AdvanceAtRest(k, m.dragging);
    assert Gap(k) == Origin && k.velocity == Origin;
    StillIsQuiet();
  }

  /** A gap of more than 0.1 is always published: the rendered position is
      the interpolated one. */
  lemma LargeGapPublished(m: Motion)
    requires Abs(Gap(Kin(m)).x) > 0.1 || Abs(Gap(Kin(m)).y) > 0.1
    ensures Tick(m).scrolling && Tick(m).scrollPosition == Tick(m).current
  {
  }

  // ----------------------------------------------------------------- input

  /** Dragging follows the pointer: two moves land the target where a single
      move to the second point would have (the displacements telescope). */
  lemma DragMovesCompose(m: Motion, p1: Vec, p2: Vec)
    requires m.dragging
    ensures PointerMove(PointerMove(m, p1), p2).target == PointerMove(m, p2).target
    ensures PointerMove(PointerMove(m, p1), p2).lastPointer == PointerMove(m, p2).lastPointer
  {
  }

  /** Dragging back to where the pointer was restores the target. */
  lemma DragBackRestores(m: Motion, p: Vec)
    requires m.dragging
    ensures PointerMove(PointerMove(m, p), m.lastPointer).target == m.target
  {
  }

  /** Across, a drag and a wheel of the same amount move the target by
      opposite amounts: dragging grabs the content, the wheel moves the view.
      Down, the wheel moves 1.6 times as far as a drag, again opposite. */
  lemma DragOpposesWheel(d: Vec, smooth: bool)
    ensures DragAdjust(d, smooth).x == -WheelAdjust(d, smooth).x
    ensures 1.6 * DragAdjust(d, smooth).y == -WheelAdjust(d, smooth).y
  {
  }

  /** Smooth mode scales both kinds of input by exactly 2.5. */
  lemma SmoothIsFaster(d: Vec)
    ensures DragAdjust(d, true) == DragAdjust(d, false).Scale(2.5)
    ensures WheelAdjust(d, true) == WheelAdjust(d, false).Scale(2.5)
  {
  }

  /** A wheel event undone by the opposite one leaves no trace. */
  lemma WheelInverse(m: Motion, d: Vec)
    ensures Wheel(Wheel(m, d), Origin.Minus(d)) == m
  {
  }

  /** Two wheel events add up to one with the summed delta. */
  lemma WheelsCompose(m: Motion, d1: Vec, d2: Vec)
    ensures Wheel(Wheel(m, d1), d2) == Wheel(m, d1.Plus(d2))
  {
  }

  /** A tap (press and release without moving) stops a glide: the target
      never moves again. */
  lemma TapStopsGlide(m: Motion, p: Vec, n: nat)
    ensures Ticks(PointerEnd(PointerStart(m, p)), n).target == m.target
  {
    var e := PointerEnd(PointerStart(m, p));
    TicksGlide(e, n);
    StillTargetStays(Kin(e), n);
  }

  /** A fling: after a last move and release, the target keeps going the way
      that move took it, at most 16 times as far again. */
  lemma FlingGlide(m: Motion, p: Vec, n: nat)
    requires m.dragging
    ensures var moved := PointerMove(m, p);
      var a := DragAdjust(p.Minus(m.lastPointer), m.smoothScroll);
      Toward(Ticks(PointerEnd(moved), n).target.x - moved.target.x, 16.0 * a.x) &&
      Toward(Ticks(PointerEnd(moved), n).target.y - moved.target.y, 16.0 * a.y)
  {
    var e := PointerEnd(PointerMove(m, p));
    TicksGlide(e, n);
    GlideBounded(Kin(e), n);
  }

  // ----------------------------------------------------------------- refs

  /** The refs and state the two momentum grids keep, updated in place by the
      animation frame and the input handlers. */
  class ScrollRefs {
    var target: Vec
    var current: Vec
    var velocity: Vec
    var dragging: bool
    var lastPointer: Vec
    var smoothScroll: bool
    var scrollPosition: Vec
    var scrolling: bool

    function State(): Motion
      reads this
    {
      Motion(target, current, velocity, dragging, lastPointer, smoothScroll, scrollPosition, scrolling)
    }

    /** On mount every position, the velocity and the pointer are at the
        origin and nothing is dragging, smooth or scrolling. */
    constructor()
      ensures State() == Motion(Origin, Origin, Origin, false, Origin, false, Origin, false)
    {
      target := Origin;
      current := Origin;
      velocity := Origin;
      dragging := false;
      lastPointer := Origin;
      smoothScroll := false;
      scrollPosition := Origin;
      scrolling := false;
    }

    /** `updateScrollPosition`, run once per animation frame. */
    method Frame()
      modifies this
      ensures State() == Tick(old(State()))
    {
      var lerp := LerpFactor(dragging);
      var delta := target.Minus(current);
      if !dragging {
        target := target.Plus(velocity);
        velocity := velocity.Scale(0.95);
      }
      current := current.Plus(delta.Scale(lerp));
      if Abs(delta.x) > 0.1 || Abs(delta.y) > 0.1 || Abs(velocity.x) > 0.1 || Abs(velocity.y) > 0.1 {
        scrollPosition := current;
        scrolling := true;
      } else {
        scrolling := false;
      }
    }

    /** `handlePointerStart`. */
    method OnPointerStart(p: Vec)
      modifies this
      ensures State() == PointerStart(old(State()), p)
    {
      dragging := true;
      lastPointer := p;
      velocity := Origin;
      smoothScroll := true;
    }

    /** The dragging part of `handlePointerMove`; returns whether the event
        was a drag (otherwise it is a hover, handled by the caller). */
    method OnPointerMove(p: Vec) returns (dragged: bool)
      modifies this
      ensures dragged == old(dragging)
      ensures State() == PointerMove(old(State()), p)
    {
      if !dragging {
        return false;
      }
      var adjust := DragAdjust(p.Minus(lastPointer), smoothScroll);
      target := target.Plus(adjust);
      velocity := adjust.Scale(0.8);
      lastPointer := p;
      return true;
    }

    /** `handlePointerEnd`. */
    method OnPointerEnd()
      modifies this
      ensures State() == PointerEnd(old(State()))
    {
      dragging := false;
      smoothScroll := false;
    }

    /** `handleScroll`, the wheel handler. */
    method OnWheel(d: Vec)
      modifies this
      ensures State() == Wheel(old(State()), d)
    {
      var adjust := WheelAdjust(d, smoothScroll);
      target := target.Plus(adjust);
      velocity := velocity.Plus(adjust.Scale(0.3));
    }

    /** `handleClick`, the scrolling part; returns whether the click counts
        (it does not during a drag). */
    method OnClick() returns (counts: bool)
      modifies this
      ensures counts == !old(dragging)
      ensures State() == Click(old(State()))
    {
      counts := !dragging;
      if counts {
        smoothScroll := true;
      }
    }
  }
}
