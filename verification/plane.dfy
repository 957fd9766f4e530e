/** Points, segments, triangles and lines of the Euclidean plane, with the
    predicates the hull and triangulation code builds on. Coordinates are
    exact reals; every value is immutable once built. */
module Plane {
  import opened Wrappers

  /** A point. `canvasId` is the handle the drawing canvas attaches to a
      point; it takes no part in equality or hashing. */
  datatype Point = Point(x: real, y: real, canvasId: Option<int>)

  /** The construction errors of the primitives. */
  datatype GeometryError = CoincidentPoints

  /** The coordinate pair that identifies a point. Python sets of points are
      modelled as sets of these pairs, since membership goes through
      `PointEquals` and `PointHash`, which only look at the coordinates. */
  function Coords(p: Point): (real, real) {
    (p.x, p.y)
  }

  /** Point equality: coordinates only. */
  predicate PointEquals(p: Point, q: Point) {
    p.x == q.x && p.y == q.y
  }

  lemma PointEqualsIsCoordinateEquality(p: Point, q: Point, id: Option<int>)
    ensures PointEquals(p, q) <==> Coords(p) == Coords(q)
    ensures PointEquals(p, p.(canvasId := id))
  {
  }

  /** The dot product `p * q`. */
  function Dot(p: Point, q: Point): real {
    p.x * q.x + p.y * q.y
  }

  lemma DotCommutes(p: Point, q: Point)
    ensures Dot(p, q) == Dot(q, p)
    ensures Dot(p, p) >= 0.0
    ensures Dot(p, p) == 0.0 <==> p.x == 0.0 && p.y == 0.0
  {
    var xx, yy := p.x * p.x, p.y * p.y;
    assert Dot(p, p) == xx + yy;
    assert xx >= 0.0 && yy >= 0.0;
    if p.x != 0.0 {
      NonZeroProduct(p.x, p.x);
    } else if p.y != 0.0 {
      NonZeroProduct(p.y, p.y);
    }
  }

  /** The square of `distance_to`; the square root itself is not modelled. */
  function SquaredDistance(p: Point, q: Point): real {
    (p.x - q.x) * (p.x - q.x) + (p.y - q.y) * (p.y - q.y)
  }

  /** The point halfway between `p` and `q`; it carries no canvas handle. */
  function Midpoint(p: Point, q: Point): (m: Point)
    ensures m.canvasId == None
    ensures SquaredDistance(m, p) == SquaredDistance(m, q)
    ensures 4.0 * SquaredDistance(m, p) == SquaredDistance(p, q)
  {
    Point((p.x + q.x) / 2.0, (p.y + q.y) / 2.0, None)
  }

  lemma MidpointIsSymmetric(p: Point, q: Point)
    ensures PointEquals(Midpoint(p, q), Midpoint(q, p))
    ensures PointEquals(Midpoint(p, p), p)
  {
  }

  // ---------------------------------------------------------------------
  // Hashing. Python's `hash` of a float and of a pair of floats are not
  // modelled concretely: a `Hasher` stands for any such pair of functions.

  datatype Hasher = Hasher(ofReal: real -> bv64, ofPair: (real, real) -> bv64)

  /** `hash(x) ^ hash(y) ^ hash((x, y))`. */
  function PointHash(h: Hasher, p: Point): bv64 {
    h.ofReal(p.x) ^ h.ofReal(p.y) ^ h.ofPair(p.x, p.y)
  }

  /** XOR does not depend on the order of its operands. */
  lemma XorCommutes(u: bv64, v: bv64)
    ensures u ^ v == v ^ u
  {
  }

  function Xor3(u: bv64, v: bv64, w: bv64): bv64 {
    u ^ v ^ w
  }

  lemma XorIgnoresOrder(u: bv64, v: bv64, w: bv64)
    ensures Xor3(u, v, w) == Xor3(u, w, v) == Xor3(v, u, w) == Xor3(v, w, u) == Xor3(w, u, v) == Xor3(w, v, u)
  {
  }

  /** Reordering the three operands leaves their XOR unchanged. */
  lemma Xor3OfReordering(u: bv64, v: bv64, w: bv64, x: bv64, y: bv64, z: bv64)
    requires || (u == x && v == y && w == z) || (u == x && v == z && w == y)
             || (u == y && v == x && w == z) || (u == y && v == z && w == x)
             || (u == z && v == x && w == y) || (u == z && v == y && w == x)
    ensures Xor3(u, v, w) == Xor3(x, y, z)
  {
    XorIgnoresOrder(u, v, w);
  }

  lemma PointHashRespectsEquality(h: Hasher, p: Point, q: Point)
    requires PointEquals(p, q)
    ensures PointHash(h, p) == PointHash(h, q)
  {
  }

  // ---------------------------------------------------------------------
  // Segments

  datatype Segment = Segment(p1: Point, p2: Point)

  /** What the constructor guarantees of every segment it lets through. */
  predicate ValidSegment(s: Segment) {
    !PointEquals(s.p1, s.p2)
  }

  /** `Segment(p1, p2)`: raises on coincident end points. */
  function NewSegment(p1: Point, p2: Point): (r: Result<Segment, GeometryError>)
    ensures r.Err? <==> PointEquals(p1, p2)
    ensures r.Ok? ==> r.value.p1 == p1 && r.value.p2 == p2 && ValidSegment(r.value)
  {
    if PointEquals(p1, p2) then Err(CoincidentPoints) else Ok(Segment(p1, p2))
  }

  function SegmentPoints(s: Segment): set<(real, real)> {
    {Coords(s.p1), Coords(s.p2)}
  }

  /** `not {self.p1, self.p2} - {other.p1, other.p2}`. */
  predicate SegmentEquals(s: Segment, o: Segment) {
    SegmentPoints(s) - SegmentPoints(o) == {}
  }

  /** `hash(p1) ^ hash(p2)`. */
  function SegmentHash(h: Hasher, s: Segment): bv64 {
    PointHash(h, s.p1) ^ PointHash(h, s.p2)
  }

  lemma SegmentEqualsIffSameEndPoints(s: Segment, o: Segment)
    requires ValidSegment(s) && ValidSegment(o)
    ensures SegmentEquals(s, o) <==>
              (PointEquals(s.p1, o.p1) && PointEquals(s.p2, o.p2)) ||
              (PointEquals(s.p1, o.p2) && PointEquals(s.p2, o.p1))
  {
    if SegmentEquals(s, o) {
      assert Coords(s.p1) in SegmentPoints(o);
      assert Coords(s.p2) in SegmentPoints(o);
    }
  }

  /** The hash of a segment depends only on the coordinates of its two end
      points, in either order. */
  lemma SegmentHashOfEndPoints(h: Hasher, s: Segment, o: Segment)
    requires (PointEquals(s.p1, o.p1) && PointEquals(s.p2, o.p2)) ||
             (PointEquals(s.p1, o.p2) && PointEquals(s.p2, o.p1))
    ensures SegmentHash(h, s) == SegmentHash(h, o)
  {
    if PointEquals(s.p1, o.p1) && PointEquals(s.p2, o.p2) {
      PointHashRespectsEquality(h, s.p1, o.p1);
      PointHashRespectsEquality(h, s.p2, o.p2);
    } else {
      PointHashRespectsEquality(h, s.p1, o.p2);
      PointHashRespectsEquality(h, s.p2, o.p1);
      XorCommutes(PointHash(h, s.p1), PointHash(h, s.p2));
    }
  }

  lemma SegmentEqualsIgnoresOrder(h: Hasher, p: Point, q: Point)
    ensures SegmentEquals(Segment(p, q), Segment(q, p))
    ensures SegmentHash(h, Segment(p, q)) == SegmentHash(h, Segment(q, p))
  {
    SegmentHashOfEndPoints(h, Segment(p, q), Segment(q, p));
  }

  /** Equal segments hash alike, and equality is symmetric. */
  lemma SegmentHashRespectsEquality(h: Hasher, s: Segment, o: Segment)
    requires ValidSegment(s) && ValidSegment(o)
    requires SegmentEquals(s, o)
    ensures SegmentEquals(o, s)
    ensures SegmentHash(h, s) == SegmentHash(h, o)
  {
    SegmentEqualsIffSameEndPoints(s, o);
    SegmentHashOfEndPoints(h, s, o);
  }

  // ---------------------------------------------------------------------
  // Triangles

  datatype Triangle = Triangle(p1: Point, p2: Point, p3: Point)

  function TrianglePoints(t: Triangle): set<(real, real)> {
    {Coords(t.p1), Coords(t.p2), Coords(t.p3)}
  }

  /** `not {self.p1, self.p2, self.p3} - {other.p1, other.p2, other.p3}`. */
  predicate TriangleEquals(t: Triangle, o: Triangle) {
    TrianglePoints(t) - TrianglePoints(o) == {}
  }

  /** `hash(p1) ^ hash(p2) ^ hash(p3)`. */
  function TriangleHash(h: Hasher, t: Triangle): bv64 {
    Xor3(PointHash(h, t.p1), PointHash(h, t.p2), PointHash(h, t.p3))
  }

  function Rotated(t: Triangle): Triangle {
    Triangle(t.p2, t.p3, t.p1)
  }

  function Swapped(t: Triangle): Triangle {
    Triangle(t.p2, t.p1, t.p3)
  }

  /** A rotation and a transposition generate all six vertex orders, so any
      reordering of the vertices gives an equal triangle with an equal hash. */
  lemma TriangleEqualsIgnoresOrder(h: Hasher, t: Triangle)
    ensures TriangleEquals(t, Rotated(t)) && TriangleEquals(Rotated(t), t)
    ensures TriangleEquals(t, Swapped(t)) && TriangleEquals(Swapped(t), t)
    ensures TriangleHash(h, Rotated(t)) == TriangleHash(h, t)
    ensures TriangleHash(h, Swapped(t)) == TriangleHash(h, t)
  {
    TriangleHashOfReordering(h, t, Rotated(t));
    TriangleHashOfReordering(h, t, Swapped(t));
  }

  /** The vertices of `o` are those of `t`, matched one to one. */
  predicate SameVerticesInSomeOrder(t: Triangle, o: Triangle) {
    var a, b, c := t.p1, t.p2, t.p3;
    || (PointEquals(a, o.p1) && PointEquals(b, o.p2) && PointEquals(c, o.p3))
    || (PointEquals(a, o.p1) && PointEquals(b, o.p3) && PointEquals(c, o.p2))
    || (PointEquals(a, o.p2) && PointEquals(b, o.p1) && PointEquals(c, o.p3))
    || (PointEquals(a, o.p2) && PointEquals(b, o.p3) && PointEquals(c, o.p1))
    || (PointEquals(a, o.p3) && PointEquals(b, o.p1) && PointEquals(c, o.p2))
    || (PointEquals(a, o.p3) && PointEquals(b, o.p2) && PointEquals(c, o.p1))
  }

  lemma TriangleHashOfReordering(h: Hasher, t: Triangle, o: Triangle)
    requires SameVerticesInSomeOrder(t, o)
    ensures TriangleHash(h, t) == TriangleHash(h, o)
  {
    forall p, q | PointEquals(p, q) ensures PointHash(h, p) == PointHash(h, q) {
      PointHashRespectsEquality(h, p, q);
    }
    Xor3OfReordering(PointHash(h, t.p1), PointHash(h, t.p2), PointHash(h, t.p3),
                     PointHash(h, o.p1), PointHash(h, o.p2), PointHash(h, o.p3));
  }

  lemma TriangleEqualsIsInclusion(t: Triangle, o: Triangle)
    ensures TriangleEquals(t, o) <==> TrianglePoints(t) <= TrianglePoints(o)
  {
  }

  /** The constructor accepts repeated vertices. Then equality is one-sided,
      and two triangles can be equal both ways yet hash differently. */
  lemma RepeatedVertexBreaksHashContract()
    ensures
      var a, b, c := Point(0.0, 0.0, None), Point(1.0, 0.0, None), Point(0.0, 1.0, None);
      var h := Hasher(x => 0, (x, y) => if x == 0.0 then 1 else 2);
      var aab, abb, abc := Triangle(a, a, b), Triangle(a, b, b), Triangle(a, b, c);
      && TriangleEquals(aab, abb) && TriangleEquals(abb, aab)
      && TriangleHash(h, aab) != TriangleHash(h, abb)
      && TriangleEquals(aab, abc) && !TriangleEquals(abc, aab)
  {
    var a, b, c := Point(0.0, 0.0, None), Point(1.0, 0.0, None), Point(0.0, 1.0, None);
    assert Coords(c) in TrianglePoints(Triangle(a, b, c));
    assert Coords(c) !in TrianglePoints(Triangle(a, a, b));
  }

  /** The triangle the class documentation describes: three distinct points. */
  predicate ValidTriangle(t: Triangle) {
    !PointEquals(t.p1, t.p2) && !PointEquals(t.p2, t.p3) && !PointEquals(t.p1, t.p3)
  }

  /** A constructor that, like `Segment`'s, rejects coincident vertices. */
  function NewTriangle(p1: Point, p2: Point, p3: Point): (r: Result<Triangle, GeometryError>)
    ensures r.Ok? <==> ValidTriangle(Triangle(p1, p2, p3))
    ensures r.Ok? ==> r.value == Triangle(p1, p2, p3)
  {
    if PointEquals(p1, p2) || PointEquals(p2, p3) || PointEquals(p1, p3) then Err(CoincidentPoints)
    else Ok(Triangle(p1, p2, p3))
  }

  /** For triangles with distinct vertices, equality means the same three
      vertices matched one to one. */
  lemma TriangleEqualsIffSameVertices(t: Triangle, o: Triangle)
    requires ValidTriangle(t) && ValidTriangle(o)
    ensures TriangleEquals(t, o) <==> SameVerticesInSomeOrder(t, o)
  {
    if TriangleEquals(t, o) {
      var a, b, c := Coords(t.p1), Coords(t.p2), Coords(t.p3);
      var d, e, f := Coords(o.p1), Coords(o.p2), Coords(o.p3);
      assert a in TrianglePoints(o) && b in TrianglePoints(o) && c in TrianglePoints(o);
      assert a == d || a == e || a == f;
      assert b == d || b == e || b == f;
      assert c == d || c == e || c == f;
    }
    if SameVerticesInSomeOrder(t, o) {
      assert TrianglePoints(t) == TrianglePoints(o);
    }
  }

  /** For triangles with distinct vertices equality is symmetric and equal
      triangles hash alike. */
  lemma TriangleHashRespectsEquality(h: Hasher, t: Triangle, o: Triangle)
    requires ValidTriangle(t) && ValidTriangle(o)
    requires TriangleEquals(t, o)
    ensures TriangleEquals(o, t)
    ensures TriangleHash(h, t) == TriangleHash(h, o)
  {
    TriangleEqualsIffSameVertices(t, o);
    TriangleEqualsIffSameVertices(o, t);
    TriangleHashOfReordering(h, t, o);
    assert SameVerticesInSomeOrder(o, t);
  }

  /** Twice the signed area of the triangle `a b c`: positive when `c` lies
      to the left of the directed line from `a` to `b`. */
  function Orientation(a: Point, b: Point, c: Point): real {
    (b.x - a.x) * (c.y - a.y) - (b.y - a.y) * (c.x - a.x)
  }

  /** The determinant `d` and the two unnormalised barycentric coordinates
      `s` and `u` of `strictly_contains`, computed as the source does. */
  function Barycentric(t: Triangle, p: Point): (real, real, real) {
    var dX, dY := p.x - t.p3.x, p.y - t.p3.y;
    var dXp3p2, dYp2p3 := t.p3.x - t.p2.x, t.p2.y - t.p3.y;
    var d := dYp2p3 * (t.p1.x - t.p3.x) + dXp3p2 * (t.p1.y - t.p3.y);
    var s := dYp2p3 * dX + dXp3p2 * dY;
    var u := (t.p3.y - t.p1.y) * dX + (t.p1.x - t.p3.x) * dY;
    (d, s, u)
  }

  /** Each quantity is an orientation: `d` of the triangle itself, `s` and
      `u` of `p` against the edges opposite `p1` and `p2`. */
  lemma BarycentricIsOrientation(t: Triangle, p: Point)
    ensures Barycentric(t, p).0 == Orientation(t.p1, t.p2, t.p3)
    ensures Barycentric(t, p).1 == Orientation(t.p2, t.p3, p)
    ensures Barycentric(t, p).2 == Orientation(t.p3, t.p1, p)
    ensures Barycentric(t, p).0 - Barycentric(t, p).1 - Barycentric(t, p).2 == Orientation(t.p1, t.p2, p)
  {
  }

  /** `strictly_contains`: the barycentric strict-interior test. */
  function StrictlyContains(t: Triangle, p: Point): (r: bool)
    ensures PointEquals(p, t.p1) || PointEquals(p, t.p2) || PointEquals(p, t.p3) ==> !r
    ensures Orientation(t.p1, t.p2, t.p3) == 0.0 ==> !r
  {
    var (d, s, u) := Barycentric(t, p);
    BarycentricIsOrientation(t, p);
    assert PointEquals(p, t.p1) ==> u == 0.0;
    assert PointEquals(p, t.p2) || PointEquals(p, t.p3) ==> s == 0.0;
    if d < 0.0 then s < 0.0 && u < 0.0 && s + u > d else s > 0.0 && u > 0.0 && s + u < d
  }

  /** The reference definition: `p` lies strictly on the inner side of each
      of the three edge lines. */
  predicate InsideEveryEdge(t: Triangle, p: Point) {
    var d := Orientation(t.p1, t.p2, t.p3);
    var o1, o2, o3 := Orientation(t.p2, t.p3, p), Orientation(t.p3, t.p1, p), Orientation(t.p1, t.p2, p);
    (d > 0.0 && o1 > 0.0 && o2 > 0.0 && o3 > 0.0) || (d < 0.0 && o1 < 0.0 && o2 < 0.0 && o3 < 0.0)
  }

  lemma StrictlyContainsIffInsideEveryEdge(t: Triangle, p: Point)
    ensures StrictlyContains(t, p) <==> InsideEveryEdge(t, p)
  {
    BarycentricIsOrientation(t, p);
  }

  /** `shares_point`: some vertex of `o` is a vertex of `t`. */
  function SharesPoint(t: Triangle, o: Triangle): (r: bool)
    ensures r <==> TrianglePoints(t) * TrianglePoints(o) != {}
  {
    var points := TrianglePoints(t);
    assert Coords(o.p1) in points ==> Coords(o.p1) in points * TrianglePoints(o);
    assert Coords(o.p2) in points ==> Coords(o.p2) in points * TrianglePoints(o);
    assert Coords(o.p3) in points ==> Coords(o.p3) in points * TrianglePoints(o);
    Coords(o.p1) in points || Coords(o.p2) in points || Coords(o.p3) in points
  }

  lemma SharesPointIsSymmetric(t: Triangle, o: Triangle)
    ensures SharesPoint(t, o) <==> SharesPoint(o, t)
  {
    assert TrianglePoints(t) * TrianglePoints(o) == TrianglePoints(o) * TrianglePoints(t);
  }

  // ---------------------------------------------------------------------
  // Lines `a*x + b*y + c = 0`

  datatype Line = Line(a: real, b: real, c: real) {

    /** The slope the constructor stores: `-a / b`, or none for a vertical line. */
    function Slope(): (m: Option<real>)
      ensures m.None? <==> b == 0.0
      ensures m.Some? ==> m.value * b == -a
    {
      if b != 0.0 then Some(-a / b) else None
    }
  }

  /** At least one coefficient of `x` and `y` is non-zero. */
  predicate WellFormed(l: Line) {
    l.a != 0.0 || l.b != 0.0
  }

  function Eval(l: Line, p: Point): real {
    l.a * p.x + l.b * p.y + l.c
  }

  predicate Contains(l: Line, p: Point) {
    l.a * p.x + l.b * p.y + l.c == 0.0
  }

  /** `Line.from_two_points`: raises on coincident points. */
  function FromTwoPoints(p1: Point, p2: Point): (r: Result<Line, GeometryError>)
    ensures r.Err? <==> PointEquals(p1, p2)
    ensures r.Ok? ==> Contains(r.value, p1) && Contains(r.value, p2) && WellFormed(r.value)
    ensures r.Ok? && p1.x == p2.x ==> r.value == Line(1.0, 0.0, -p1.x)
    ensures r.Ok? && p1.x != p2.x ==> r.value.b == -1.0
  {
    if PointEquals(p1, p2) then Err(CoincidentPoints)
    else if p1.x == p2.x then Ok(Line(1.0, 0.0, -p1.x))
    else
      var m := (p2.y - p1.y) / (p2.x - p1.x);
      assert m * (p2.x - p1.x) == p2.y - p1.y;
      assert m * p2.x - p2.y + p1.y - m * p1.x == m * (p2.x - p1.x) - (p2.y - p1.y);
      Ok(Line(m, -1.0, p1.y - m * p1.x))
  }

  /** The line through two distinct points holds exactly the points
      collinear with them. */
  lemma FromTwoPointsHoldsCollinearPoints(p1: Point, p2: Point, q: Point)
    requires !PointEquals(p1, p2)
    ensures Contains(FromTwoPoints(p1, p2).value, q) <==> Orientation(p1, p2, q) == 0.0
  {
    var l := FromTwoPoints(p1, p2).value;
    var dx, dy := p2.x - p1.x, p2.y - p1.y;
    if dx == 0.0 {
      assert Orientation(p1, p2, q) == -dy * (q.x - p1.x);
      assert dy != 0.0;
      NonZeroProduct(q.x - p1.x, -dy);
    } else {
      var m := dy / dx;
      assert l == Line(m, -1.0, p1.y - m * p1.x);
      assert m * dx == dy;
      calc {
        Eval(l, q) * dx;
        (m * (q.x - p1.x) - (q.y - p1.y)) * dx;
        m * dx * (q.x - p1.x) - (q.y - p1.y) * dx;
        dy * (q.x - p1.x) - (q.y - p1.y) * dx;
        -Orientation(p1, p2, q);
      }
      NonZeroProduct(Eval(l, q), dx);
    }
  }

  lemma NonZeroProduct(u: real, v: real)
    requires v != 0.0
    ensures u * v == 0.0 <==> u == 0.0
  {
    if u != 0.0 {
      if u > 0.0 && v > 0.0 {
        assert u * v > 0.0;
      } else if u > 0.0 {
        assert u * v < 0.0;
      } else if v > 0.0 {
        assert u * v < 0.0;
      } else {
        assert u * v > 0.0;
      }
    }
  }

  /** The coefficient whose sign tells which side of the line is "above":
      `b`, or `a` for a vertical line. */
  function Leading(l: Line): real {
    if l.b != 0.0 then l.b else l.a
  }

  /** `is_strictly_below`: the line passes strictly below `p` (strictly to
      its left, for a vertical line). */
  function IsStrictlyBelow(l: Line, p: Point): (r: bool)
    requires l.b == 0.0 ==> l.a != 0.0
    ensures Contains(l, p) ==> !r
    ensures r <==> if Leading(l) > 0.0 then Eval(l, p) > 0.0 else Eval(l, p) < 0.0
  {
    if l.b == 0.0 then
      QuotientBelow(-l.c, l.a, p.x);
      -l.c / l.a < p.x
    else
      QuotientBelow(-(p.x * l.a + l.c), l.b, p.y);
      -(p.x * l.a + l.c) / l.b < p.y
  }

  lemma QuotientBelow(n: real, k: real, v: real)
    requires k != 0.0
    ensures n / k < v <==> if k > 0.0 then v * k - n > 0.0 else v * k - n < 0.0
  {
    var q := n / k;
    assert q * k == n;
    assert v * k - n == (v - q) * k;
    if k > 0.0 {
      if q < v {
        assert (v - q) * k > 0.0;
      } else {
        assert (v - q) * k <= 0.0;
      }
    } else {
      if q < v {
        assert (v - q) * k < 0.0;
      } else {
        assert (v - q) * k >= 0.0;
      }
    }
  }

  /** For the line through two points in increasing x order, lying strictly
      below `q` means `q` is a strict left turn from `p1` to `p2`. */
  lemma BelowChordIffLeftTurn(p1: Point, p2: Point, q: Point)
    requires p1.x < p2.x
    ensures IsStrictlyBelow(FromTwoPoints(p1, p2).value, q) <==> Orientation(p1, p2, q) > 0.0
  {
    var l := FromTwoPoints(p1, p2).value;
    var dx, dy := p2.x - p1.x, p2.y - p1.y;
    var m := dy / dx;
    assert l == Line(m, -1.0, p1.y - m * p1.x);
    assert m * dx == dy;
    calc {
      Eval(l, q) * dx;
      (m * (q.x - p1.x) - (q.y - p1.y)) * dx;
      m * dx * (q.x - p1.x) - (q.y - p1.y) * dx;
      dy * (q.x - p1.x) - (q.y - p1.y) * dx;
      -Orientation(p1, p2, q);
    }
    if Eval(l, q) < 0.0 {
      assert Eval(l, q) * dx < 0.0;
    } else {
      assert Eval(l, q) * dx >= 0.0;
    }
  }

  /** `intersection`: none when the stored slopes are equal (parallel or
      coincident lines). The requires clause is what keeps the two
      divisions of the source away from zero. */
  function Intersection(l1: Line, l2: Line): (r: Option<Point>)
    requires l1.Slope() != l2.Slope() ==> l2.a * l1.b - l1.a * l2.b != 0.0 && (l1.a != 0.0 || l2.a != 0.0)
    ensures r.None? <==> l1.Slope() == l2.Slope()
    ensures r.Some? ==> Contains(l1, r.value) && Contains(l2, r.value) && r.value.canvasId == None
  {
    if l1.Slope() == l2.Slope() then None
    else
      var den := l2.a * l1.b - l1.a * l2.b;
      var y := (l1.a * l2.c - l2.a * l1.c) / den;
      var line := if l1.a != 0.0 then l1 else l2;
      var other := if l1.a != 0.0 then l2 else l1;
      var x := -line.b * y / line.a - line.c / line.a;
      assert y * den == l1.a * l2.c - l2.a * l1.c;
      assert line.a * x == -line.b * y - line.c;
      BackSubstitution(line, other, x, y);
      Some(Point(x, y, None))
  }

  /** Solving `line` for `x` once `y` solves the eliminated system puts the
      point on both lines. */
  lemma BackSubstitution(line: Line, other: Line, x: real, y: real)
    requires line.a != 0.0
    requires (other.a * line.b - line.a * other.b) * y == line.a * other.c - other.a * line.c
    requires line.a * x == -line.b * y - line.c
    ensures Contains(line, Point(x, y, None)) && Contains(other, Point(x, y, None))
  {
    var e := Eval(other, Point(x, y, None));
    calc {
      line.a * e;
      other.a * (line.a * x) + line.a * other.b * y + line.a * other.c;
      other.a * (-line.b * y - line.c) + line.a * other.b * y + line.a * other.c;
      -((other.a * line.b - line.a * other.b) * y) + line.a * other.c - other.a * line.c;
      0.0;
    }
    NonZeroProduct(e, line.a);
  }

  /** Two lines with different slopes meet in exactly one point. */
  lemma IntersectionIsUnique(l1: Line, l2: Line, q: Point)
    requires l1.Slope() != l2.Slope() ==> l2.a * l1.b - l1.a * l2.b != 0.0 && (l1.a != 0.0 || l2.a != 0.0)
    requires Intersection(l1, l2).Some?
    requires Contains(l1, q) && Contains(l2, q)
    ensures PointEquals(q, Intersection(l1, l2).value)
  {
    CommonPointIsUnique(l1, l2, Intersection(l1, l2).value, q);
  }

  /** Two points on both of two lines with a non-zero determinant coincide. */
  lemma CommonPointIsUnique(l1: Line, l2: Line, p: Point, q: Point)
    requires l2.a * l1.b - l1.a * l2.b != 0.0
    requires Contains(l1, p) && Contains(l2, p) && Contains(l1, q) && Contains(l2, q)
    ensures PointEquals(q, p)
  {
    // Subtracting the two equations for p and q leaves a homogeneous system
    // whose determinant is `l2.a * l1.b - l1.a * l2.b`.
    var u, v := q.x - p.x, q.y - p.y;
    assert l1.a * u + l1.b * v == 0.0;
    assert l2.a * u + l2.b * v == 0.0;
    OnlyTrivialSolution(l1.a, l1.b, l2.a, l2.b, u, v);
  }

  /** A homogeneous 2x2 system with a non-zero determinant has only the
      zero solution. */
  lemma OnlyTrivialSolution(a1: real, b1: real, a2: real, b2: real, u: real, v: real)
    requires a2 * b1 - a1 * b2 != 0.0
    requires a1 * u + b1 * v == 0.0 && a2 * u + b2 * v == 0.0
    ensures u == 0.0 && v == 0.0
  {
    var den := a2 * b1 - a1 * b2;
    assert den * v == 0.0 by {
      calc {
        den * v;
        a2 * (b1 * v) - a1 * (b2 * v);
        a2 * (-a1 * u) - a1 * (-a2 * u);
        0.0;
      }
    }
    assert den * u == 0.0 by {
      calc {
        den * u;
        b1 * (a2 * u) - b2 * (a1 * u);
        b1 * (-b2 * v) - b2 * (-b1 * v);
        0.0;
      }
    }
    NonZeroProduct(v, den);
    NonZeroProduct(u, den);
  }

  /** Well-formed lines never make `intersection` divide by zero. */
  lemma WellFormedLinesIntersectSafely(l1: Line, l2: Line)
    requires WellFormed(l1) && WellFormed(l2)
    ensures l1.Slope() != l2.Slope() ==> l2.a * l1.b - l1.a * l2.b != 0.0 && (l1.a != 0.0 || l2.a != 0.0)
  {
    if l1.Slope() != l2.Slope() {
      if l1.b != 0.0 && l2.b != 0.0 {
        var m1, m2 := -l1.a / l1.b, -l2.a / l2.b;
        assert m1 * l1.b == -l1.a && m2 * l2.b == -l2.a;
        assert m1 != m2;
        calc {
          l2.a * l1.b - l1.a * l2.b;
          -m2 * l2.b * l1.b + m1 * l1.b * l2.b;
          (m1 - m2) * (l1.b * l2.b);
        }
        NonZeroProduct(l1.b, l2.b);
        NonZeroProduct(m1 - m2, l1.b * l2.b);
      } else if l1.b == 0.0 {
        NonZeroProduct(l1.a, l2.b);
      } else {
        NonZeroProduct(l2.a, l1.b);
      }
    }
  }

  /** `orthogonal_line`: none when `p` is not on the line; otherwise the
      perpendicular through `p`. */
  function OrthogonalLine(l: Line, p: Point): (r: Option<Line>)
    ensures r.None? <==> !Contains(l, p)
    ensures r.Some? ==> Contains(r.value, p) && WellFormed(r.value)
    ensures r.Some? ==> l.a * r.value.a + l.b * r.value.b == 0.0
  {
    if !Contains(l, p) then None
    else if l.a == 0.0 then Some(Line(1.0, 0.0, -p.x))
    else if l.b == 0.0 then Some(Line(0.0, 1.0, -p.y))
    else
      var slope := l.Slope().value;
      assert slope != 0.0;
      var m := -1.0 / slope;
      assert m * slope == -1.0;
      assert l.a * m * slope == -l.a;
      assert l.a * m * slope * l.b == l.a * m * (slope * l.b);
      assert l.a * m - l.b == 0.0 by {
        NonZeroProduct(l.a * m - l.b, slope);
        assert (l.a * m - l.b) * slope == l.a * m * slope - l.b * slope;
        assert l.b * slope == -l.a;
      }
      Some(Line(m, -1.0, p.y - m * p.x))
  }

  /** The midpoint of two distinct points lies on the line through them. */
  lemma MidpointIsOnChord(p: Point, q: Point)
    requires !PointEquals(p, q)
    ensures Contains(FromTwoPoints(p, q).value, Midpoint(p, q))
  {
    FromTwoPointsHoldsCollinearPoints(p, q, Midpoint(p, q));
  }
}
