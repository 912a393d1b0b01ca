/** The JavaScript number operations the grid components rely on, stated over
    Dafny's unbounded integers and exact reals. */
module JsArith {

  /** JavaScript's `%` on integers: the remainder of a division truncated
      toward zero, so it carries the sign of the dividend (`-7 % 5 == -2`),
      unlike Dafny's Euclidean `%`. */
  function JsRem(n: int, d: int): (r: int)
    requires d > 0
    ensures n >= 0 ==> 0 <= r < d
    ensures n < 0 ==> -d < r <= 0
  {
    if n >= 0 then n % d else -((-n) % d)
  }

  /** `n` and `n % d` (JavaScript's) differ by a whole multiple of `d`. */
  lemma JsRemCongruent(n: int, d: int)
    requires d > 0
    ensures (n - JsRem(n, d)) % d == 0
  {
    if n >= 0 {
      assert n - JsRem(n, d) == d * (n / d);
      ModUnique(d * (n / d), d, n / d, 0);
    } else {
      assert n - JsRem(n, d) == d * -((-n) / d);
      ModUnique(d * -((-n) / d), d, -((-n) / d), 0);
    }
  }

  /** The index correction every component writes as `((n % P) + P) % P`. */
  function Wrap(n: int, period: int): (r: int)
    requires period > 0
    ensures 0 <= r < period
  {
    JsRem(JsRem(n, period) + period, period)
  }

  /** The corrected formula is exactly Euclidean modulo, for negative `n` too. */
  lemma WrapIsEuclidean(n: int, period: int)
    requires period > 0
    ensures Wrap(n, period) == n % period
  {
    var inner := JsRem(n, period);
    JsRemCongruent(n, period);
    var k := (n - inner) / period;
    ModUnique(n - inner, period, k, 0);
    assert n - inner == period * k;
    ModShift(inner + period, k, period);
    assert (inner + period) + k * period == n + period;
    ModShift(n, 1, period);
  }

  /** The Euclidean remainder is the unique `r` with `x == d * q + r` and `0 <= r < d`. */
  lemma ModUnique(x: int, d: int, q: int, r: int)
    requires d > 0 && x == d * q + r && 0 <= r < d
    ensures x % d == r && x / d == q
  {
    var q0, r0 := x / d, x % d;
    assert x == d * q0 + r0;
    assert d * (q - q0) == r0 - r;
    if q - q0 >= 1 {
      MulAtLeast(d, q - q0);
      assert false;
    } else if q - q0 <= -1 {
      MulAtLeast(d, q0 - q);
      assert false;
    }
  }

  lemma MulAtLeast(d: int, k: int)
    requires d > 0 && k >= 1
    ensures d * k >= d
  {
  }

  /** Adding a multiple of `d` does not change a Euclidean remainder. */
  lemma ModShift(n: int, k: int, d: int)
    requires d > 0
    ensures (n + k * d) % d == n % d
  {
    ModUnique(n + k * d, d, n / d + k, n % d);
  }

  /** Two integers are congruent modulo `d` exactly when they leave the same remainder. */
  lemma CongruentIffSameMod(a: int, b: int, d: int)
    requires d > 0
    ensures (a - b) % d == 0 <==> a % d == b % d
  {
    var qa, qb := a / d, b / d;
    if a % d == b % d {
      assert a - b == d * (qa - qb) + 0;
      ModUnique(a - b, d, qa - qb, 0);
    }
    if (a - b) % d == 0 {
      var k := (a - b) / d;
      assert a == b + k * d;
      ModShift(b, k, d);
    }
  }

  /** Shifting a logical index by whole periods never changes its wrapped index. */
  lemma WrapPeriodic(n: int, k: int, period: int)
    requires period > 0
    ensures Wrap(n + k * period, period) == Wrap(n, period)
  {
    WrapIsEuclidean(n, period);
    WrapIsEuclidean(n + k * period, period);
    ModShift(n, k, period);
  }

  /** `Math.floor`: the greatest integer not above `r`. */
  function Floor(r: real): (f: int)
    ensures f as real <= r < f as real + 1.0
  {
    r.Floor
  }

  /** `Math.ceil`: the least integer not below `r`. */
  function Ceil(r: real): (c: int)
    ensures c as real - 1.0 < r <= c as real
  {
    -((-r).Floor)
  }
}

/** Two-component values, the `{ x, y }` objects of the components. */
module Planar {

  datatype Vec = Vec(x: real, y: real) {
    function Plus(o: Vec): Vec { Vec(x + o.x, y + o.y) }
    function Minus(o: Vec): Vec { Vec(x - o.x, y - o.y) }
    function Scale(k: real): Vec { Vec(k * x, k * y) }
  }

  const Origin := Vec(0.0, 0.0)
}
