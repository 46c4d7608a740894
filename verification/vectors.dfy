/**
  The little of Unity's `Vector2` the board uses: addition, subtraction,
  scaling, the dot and cross products, squared distance and reflection about
  a normal.
 */
module Vectors {

  datatype Vec2 = Vec2(x: real, y: real)

  const Zero: Vec2 := Vec2(0.0, 0.0)
  /** `Vector2.right` and `Vector2.left`. */
  const Right: Vec2 := Vec2(1.0, 0.0)
  const Left: Vec2 := Vec2(-1.0, 0.0)

  function Add(a: Vec2, b: Vec2): Vec2
  {
    Vec2(a.x + b.x, a.y + b.y)
  }

  function Scale(a: Vec2, k: real): Vec2
  {
    Vec2(a.x * k, a.y * k)
  }

  function Sub(a: Vec2, b: Vec2): Vec2
  {
    Vec2(a.x - b.x, a.y - b.y)
  }

  function Dot(a: Vec2, b: Vec2): real
  {
    a.x * b.x + a.y * b.y
  }

  /** The component of `a` across `b`: the dot product with `b` turned a
      quarter turn clockwise. */
  function Cross(a: Vec2, b: Vec2): real
  {
    a.x * b.y - a.y * b.x
  }

  /** The square of `Vector2.Distance(a, b)`. Both the distance and the
      threshold it is compared with are non-negative, so comparing squares
      orders and filters exactly as comparing distances does. */
  function Dist2(a: Vec2, b: Vec2): (d: real)
    ensures d >= 0.0
  {
    var dx := a.x - b.x;
    var dy := a.y - b.y;
    assert dx * dx >= 0.0 && dy * dy >= 0.0;
    dx * dx + dy * dy
  }

  /** `to` is `from` moved `k` times the length of `d` along `d`: the
      squared distance is `k^2 |d|^2`, the component along `d` is `k |d|^2`
      and nothing moved across `d`. */
  predicate MovedAlong(from: Vec2, to: Vec2, d: Vec2, k: real) {
    && Dist2(to, from) == k * k * Dot(d, d)
    && Dot(Sub(to, from), d) == k * Dot(d, d)
    && Cross(Sub(to, from), d) == 0.0
  }

  /** Moving by `k` times `d` covers `|k|` times the length of `d`, in the
      direction of `d` when `k` is positive and not across it. */
  lemma TranslateDistance(p: Vec2, d: Vec2, k: real)
    ensures MovedAlong(p, Add(p, Scale(d, k)), d, k)
  {
    assert (p.x + d.x * k) - p.x == d.x * k;
    assert (p.y + d.y * k) - p.y == d.y * k;
  }

  /** `Vector2.Reflect(d, n)`: the mirror image of `d` in the line orthogonal
      to `n`. It keeps the component of `d` across `n`; for a unit normal it
      also keeps the length of `d` and flips the sign of its component along
      `n`. */
  function Reflect(d: Vec2, n: Vec2): (r: Vec2)
    ensures Cross(r, n) == Cross(d, n)
    ensures Dot(n, n) == 1.0 ==> Dot(r, n) == -Dot(d, n)
    ensures Dot(n, n) == 1.0 ==> Dot(r, r) == Dot(d, d)
  {
    var k := -2.0 * Dot(n, d);
    var r := Add(Scale(n, k), d);
    assert Dot(n, n) == 1.0 ==> Dot(r, n) == -Dot(d, n) && Dot(r, r) == Dot(d, d) by {
      if Dot(n, n) == 1.0 {
        ReflectFacts(d, n, k);
      }
    }
    r
  }

  /** About a unit normal, a vector is fixed by its components along and
      across the normal; so the two component clauses of `Reflect` pin the
      reflection down. */
  lemma ReflectDetermined(d: Vec2, n: Vec2, r: Vec2)
    requires Dot(n, n) == 1.0
    ensures Dot(r, n) == -Dot(d, n) && Cross(r, n) == Cross(d, n) <==> r == Reflect(d, n)
  {
    if Dot(r, n) == -Dot(d, n) && Cross(r, n) == Cross(d, n) {
      var m := Reflect(d, n);
      Decompose(r, n);
      Decompose(m, n);
    }
  }

  /** A vector rebuilt from its components along and across a unit vector. */
  lemma Decompose(v: Vec2, n: Vec2)
    requires Dot(n, n) == 1.0
    ensures v == Vec2(Dot(v, n) * n.x + Cross(v, n) * n.y, Dot(v, n) * n.y - Cross(v, n) * n.x)
  {
    assert Dot(v, n) * n.x + Cross(v, n) * n.y == v.x * (n.x * n.x + n.y * n.y);
    assert Dot(v, n) * n.y - Cross(v, n) * n.x == v.y * (n.x * n.x + n.y * n.y);
  }

  lemma ReflectFacts(d: Vec2, n: Vec2, k: real)
    requires Dot(n, n) == 1.0
    requires k == -2.0 * Dot(n, d)
    ensures Dot(Add(Scale(n, k), d), n) == -Dot(d, n)
    ensures Dot(Add(Scale(n, k), d), Add(Scale(n, k), d)) == Dot(d, d)
  {
    var r := Add(Scale(n, k), d);
    var e := Dot(n, d);
    assert Dot(r, n) == k * Dot(n, n) + e;
    assert Dot(r, r) == k * k * Dot(n, n) + 2.0 * k * e + Dot(d, d);
  }

  /** Reflecting twice about the same unit normal restores the direction. */
  lemma ReflectInvolution(d: Vec2, n: Vec2)
    requires Dot(n, n) == 1.0
    ensures Reflect(Reflect(d, n), n) == d
  {
    var r := Reflect(d, n);
    assert Dot(n, r) == -Dot(n, d);
  }

  /** About a side wall's normal `(±1, 0)` a reflection negates x only. */
  lemma ReflectOffSideWall(d: Vec2, n: Vec2)
    requires n == Right || n == Left
    ensures Reflect(d, n) == Vec2(-d.x, d.y)
  {
  }
}
