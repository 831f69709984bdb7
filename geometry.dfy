/** The expression-only geometry helpers of otb/utils.cpp: the 2D
    same-side / point-in-triangle test and the choice of the helper axis
    used to build a tangent frame in `cosine_weighted_hemisphere_sample`.
    Coordinates are exact reals instead of `float`. */
module Geometry {

  datatype Vec2 = Vec2(x: real, y: real)
  datatype Vec3 = Vec3(x: real, y: real, z: real)

  function Sub2(a: Vec2, b: Vec2): Vec2 { Vec2(a.x - b.x, a.y - b.y) }

  /** `glm::cross` */
  function Cross(u: Vec3, v: Vec3): Vec3
  {
    Vec3(u.y * v.z - u.z * v.y, u.z * v.x - u.x * v.z, u.x * v.y - u.y * v.x)
  }

  /** `glm::dot` */
  function Dot(u: Vec3, v: Vec3): real { u.x * v.x + u.y * v.y + u.z * v.z }

  /** A 2D vector lifted to the plane z = 0, as `glm::vec3(d.x, d.y, .0f)`. */
  function Lift(d: Vec2): Vec3 { Vec3(d.x, d.y, 0.0) }

  /** `same_side(p1, p2, a, b)`: the cross products of b - a with p1 - a and
      with p2 - a do not point in opposite directions. */
  predicate SameSide(p1: Vec2, p2: Vec2, a: Vec2, b: Vec2)
  {
    var bMinusA := Lift(Sub2(b, a));
    var cp1 := Cross(bMinusA, Lift(Sub2(p1, a)));
    var cp2 := Cross(bMinusA, Lift(Sub2(p2, a)));
    Dot(cp1, cp2) >= 0.0
  }

  /** `point_in_tris(p, a, b, c)` */
  predicate PointInTriangle(p: Vec2, a: Vec2, b: Vec2, c: Vec2)
  {
    SameSide(p, a, b, c) && SameSide(p, b, a, c) && SameSide(p, c, a, b)
  }

  /** Twice the signed area of the triangle (a, b, p): positive when p lies to
      the left of the directed line a -> b, zero when it lies on it. */
  function Orient(a: Vec2, b: Vec2, p: Vec2): real
  {
    (b.x - a.x) * (p.y - a.y) - (b.y - a.y) * (p.x - a.x)
  }

  /** The cross product of two vectors of the plane z = 0 is (0, 0, Orient),
      so `same_side` is a sign comparison of two orientations. */
  lemma SameSideIsOrientationTest(p1: Vec2, p2: Vec2, a: Vec2, b: Vec2)
    ensures SameSide(p1, p2, a, b) <==> Orient(a, b, p1) * Orient(a, b, p2) >= 0.0
  {
    var bMinusA := Lift(Sub2(b, a));
    var cp1 := Cross(bMinusA, Lift(Sub2(p1, a)));
    var cp2 := Cross(bMinusA, Lift(Sub2(p2, a)));
    assert cp1 == Vec3(0.0, 0.0, Orient(a, b, p1));
    assert cp2 == Vec3(0.0, 0.0, Orient(a, b, p2));
  }

  /** `point_in_tris` holds exactly when, for every edge, p lies on the same
      side as the opposite vertex or on the edge's line. */
  lemma PointInTriangleIff(p: Vec2, a: Vec2, b: Vec2, c: Vec2)
    ensures PointInTriangle(p, a, b, c) <==>
      Orient(b, c, p) * Orient(b, c, a) >= 0.0 &&
      Orient(a, c, p) * Orient(a, c, b) >= 0.0 &&
      Orient(a, b, p) * Orient(a, b, c) >= 0.0
  {
    SameSideIsOrientationTest(p, a, b, c);
    SameSideIsOrientationTest(p, b, a, c);
    SameSideIsOrientationTest(p, c, a, b);
  }

  /** The point q + t (r - q) on the line through q and r. */
  function Lerp(q: Vec2, r: Vec2, t: real): Vec2
  {
    Vec2(q.x + t * (r.x - q.x), q.y + t * (r.y - q.y))
  }

  /** Orientation is affine along a line. */
  lemma OrientLerp(a: Vec2, b: Vec2, q: Vec2, r: Vec2, t: real)
    ensures Orient(a, b, Lerp(q, r, t)) == (1.0 - t) * Orient(a, b, q) + t * Orient(a, b, r)
  {
  }

  lemma ScaledSquareNonneg(s: real, o: real)
    requires 0.0 <= s
    ensures (s * o) * o >= 0.0
  {
    assert (s * o) * o == s * (o * o);
  }

  /** Points on the closed edge a-b (p = a + t (b - a), 0 <= t <= 1) count
      as inside, whatever the triangle. */
  lemma {:induction false} EdgePointsInside(a: Vec2, b: Vec2, c: Vec2, t: real)
    requires 0.0 <= t <= 1.0
    ensures PointInTriangle(Lerp(a, b, t), a, b, c)
  {
    var p := Lerp(a, b, t);
    PointInTriangleIff(p, a, b, c);
    OrientLerp(b, c, a, b, t);
    assert Orient(b, c, b) == 0.0;
    ScaledSquareNonneg(1.0 - t, Orient(b, c, a));
    OrientLerp(a, c, a, b, t);
    assert Orient(a, c, a) == 0.0;
    ScaledSquareNonneg(t, Orient(a, c, b));
    OrientLerp(a, b, a, b, t);
    assert Orient(a, b, a) == 0.0 && Orient(a, b, b) == 0.0;
  }

  /** The test does not depend on the order of the vertices: swapping b and
      c (the opposite winding) or a and b gives the same answer, and these
      two swaps generate every reordering. */
  lemma WindingIndependent(p: Vec2, a: Vec2, b: Vec2, c: Vec2)
    ensures PointInTriangle(p, a, b, c) <==> PointInTriangle(p, a, c, b)
    ensures PointInTriangle(p, a, b, c) <==> PointInTriangle(p, b, a, c)
  {
    PointInTriangleIff(p, a, b, c);
    PointInTriangleIff(p, a, c, b);
    PointInTriangleIff(p, b, a, c);
    assert Orient(c, b, p) == -Orient(b, c, p);
    assert Orient(c, b, a) == -Orient(b, c, a);
    assert Orient(b, a, p) == -Orient(a, b, p);
    assert Orient(b, a, c) == -Orient(a, b, c);
  }

  function Abs(v: real): real { if v < 0.0 then -v else v }

  /** Which component of n the helper axis overrides: 0 for x, 1 for y, 2 for z. */
  function HelperComponent(n: Vec3): nat
  {
    if Abs(n.x) <= Abs(n.y) && Abs(n.x) <= Abs(n.z) then 0
    else if Abs(n.y) <= Abs(n.x) && Abs(n.y) <= Abs(n.z) then 1
    else 2
  }

  /** The helper vector `h` of `cosine_weighted_hemisphere_sample`: a copy of
      n whose component of smallest magnitude is set to 1, ties going to x,
      then to y. */
  function HelperAxis(n: Vec3): (h: Vec3)
    ensures HelperComponent(n) == 0 ==>
      h == Vec3(1.0, n.y, n.z) && Abs(n.x) <= Abs(n.y) && Abs(n.x) <= Abs(n.z)
    ensures HelperComponent(n) == 1 ==>
      h == Vec3(n.x, 1.0, n.z) && Abs(n.y) < Abs(n.x) && Abs(n.y) <= Abs(n.z)
    ensures HelperComponent(n) == 2 ==>
      h == Vec3(n.x, n.y, 1.0) && Abs(n.z) < Abs(n.x) && Abs(n.z) < Abs(n.y)
  {
    match HelperComponent(n)
    case 0 => n.(x := 1.0)
    case 1 => n.(y := 1.0)
    case _ => n.(z := 1.0)
  }

  /** The component of n that the helper axis overrides. */
  function Overridden(n: Vec3): real
  {
    match HelperComponent(n)
    case 0 => n.x
    case 1 => n.y
    case _ => n.z
  }

  /** For a nonzero n whose overridden component is not already 1 (true of
      every unit normal), the helper axis is not parallel to n, so
      `cross(h, n)` is nonzero and the tangent x = normalize(cross(h, n)) is
      defined. */
  lemma {:induction false} HelperAxisNotParallel(n: Vec3)
    requires n != Vec3(0.0, 0.0, 0.0)
    requires Overridden(n) != 1.0
    ensures Cross(HelperAxis(n), n) != Vec3(0.0, 0.0, 0.0)
  {
    if HelperComponent(n) == 0 {
      // the smallest component is x, so y or z is nonzero
      assert n.y != 0.0 || n.z != 0.0;
      OverrideX(n);
    } else if HelperComponent(n) == 1 {
      assert n.x != 0.0;
      OverrideY(n);
    } else {
      assert n.x != 0.0;
      OverrideZ(n);
    }
  }

  lemma OverrideX(n: Vec3)
    requires n.x != 1.0 && (n.y != 0.0 || n.z != 0.0)
    ensures Cross(Vec3(1.0, n.y, n.z), n) != Vec3(0.0, 0.0, 0.0)
  {
    var c := Cross(Vec3(1.0, n.y, n.z), n);
    assert c.y == -(n.z * (1.0 - n.x)) && c.z == n.y * (1.0 - n.x);
    if n.y != 0.0 { NonzeroProduct(n.y, 1.0 - n.x); } else { NonzeroProduct(n.z, 1.0 - n.x); }
  }

  lemma OverrideY(n: Vec3)
    requires n.y != 1.0 && n.x != 0.0
    ensures Cross(Vec3(n.x, 1.0, n.z), n) != Vec3(0.0, 0.0, 0.0)
  {
    var c := Cross(Vec3(n.x, 1.0, n.z), n);
    assert c.z == -(n.x * (1.0 - n.y));
    NonzeroProduct(n.x, 1.0 - n.y);
  }

  lemma OverrideZ(n: Vec3)
    requires n.z != 1.0 && n.x != 0.0
    ensures Cross(Vec3(n.x, n.y, 1.0), n) != Vec3(0.0, 0.0, 0.0)
  {
    var c := Cross(Vec3(n.x, n.y, 1.0), n);
    assert c.y == n.x * (1.0 - n.z);
    NonzeroProduct(n.x, 1.0 - n.z);
  }

  lemma NonzeroProduct(a: real, b: real)
    requires a != 0.0 && b != 0.0
    ensures a * b != 0.0
  {
  }
}
