/** The shape variants of the drawing and their geometric transforms.

    The class hierarchy (ellipse, polygon, polyline and the derived circle,
    rect and line) becomes one sum type; every in-place transform becomes a
    pure function returning the transformed shape, and `draw` returns the
    calls it makes on the canvas. */
module Elements {
  import opened Geometry
  import opened Canvas

  /** A shape with its fill colour and its own geometry. */
  datatype Shape =
    | Ellipse(fill: Color, center: Point, radius: Point)
    | Polygon(fill: Color, points: seq<Point>)
    | Polyline(fill: Color, points: seq<Point>, stroke: Color)

  /** The colours a shape stores: its fill, and a polyline's stroke. */
  function Colours(s: Shape): seq<Color> {
    match s
    case Polyline(fill, _, stroke) => [fill, stroke]
    case _ => [s.fill]
  }

  /** Both shapes are built by the same constructor. */
  predicate SameVariant(a: Shape, b: Shape) {
    (a.Ellipse? && b.Ellipse?) || (a.Polygon? && b.Polygon?) || (a.Polyline? && b.Polyline?)
  }

  /** Applies a point operation to every vertex, index by index, as the
      `for (i = 0; i < points.size(); i++)` loops of the transforms do. */
  function MapPoints(ps: seq<Point>, f: Point -> Point): (r: seq<Point>)
    ensures |r| == |ps|
    ensures forall i :: 0 <= i < |ps| ==> r[i] == f(ps[i])
  {
    if ps == [] then [] else [f(ps[0])] + MapPoints(ps[1..], f)
  }

  /** The point operation of a translation by `t`. */
  function TranslateBy(t: Point): Point -> Point {
    (p: Point) => p.Translate(t)
  }

  /** shape::translate: moves the centre, or every vertex, by `t`. */
  function Translate(s: Shape, t: Point): (r: Shape)
    ensures SameVariant(s, r) && Colours(r) == Colours(s)
    ensures r.Ellipse? ==> r.center == s.center.Translate(t) && r.radius == s.radius
    ensures !r.Ellipse? ==>
      |r.points| == |s.points| &&
      forall i :: 0 <= i < |s.points| ==> r.points[i] == s.points[i].Translate(t)
  {
    match s
    case Ellipse(fill, center, radius) => Ellipse(fill, center.Translate(t), radius)
    case Polygon(fill, points) => Polygon(fill, MapPoints(points, TranslateBy(t)))
    case Polyline(fill, points, stroke) => Polyline(fill, MapPoints(points, TranslateBy(t)), stroke)
  }

  /** shape::scale: an ellipse scales its centre about `origin` and both
      radius components by `v`; a polygon or polyline scales every vertex
      about `origin`. */
  function Scale(s: Shape, origin: Point, v: int): (r: Shape)
    ensures SameVariant(s, r) && Colours(r) == Colours(s)
    ensures r.Ellipse? ==>
      r.center == s.center.Scale(origin, v) &&
      r.radius == Point(s.radius.x * v, s.radius.y * v)
    ensures !r.Ellipse? ==>
      |r.points| == |s.points| &&
      forall i :: 0 <= i < |s.points| ==> r.points[i] == s.points[i].Scale(origin, v)
  {
    match s
    case Ellipse(fill, center, radius) =>
      Ellipse(fill, center.Scale(origin, v), Point(radius.x * v, radius.y * v))
    case Polygon(fill, points) =>
      Polygon(fill, MapPoints(points, (p: Point) => p.Scale(origin, v)))
    case Polyline(fill, points, stroke) =>
      Polyline(fill, MapPoints(points, (p: Point) => p.Scale(origin, v)), stroke)
  }

  /** shape::rotate: rotates the centre of an ellipse (its radius pair is not
      reoriented), or every vertex, about `origin` by `degrees`, using the
      point rotation `rot`. */
  function Rotate(s: Shape, origin: Point, degrees: int, rot: Rotation): (r: Shape)
    ensures SameVariant(s, r) && Colours(r) == Colours(s)
    ensures r.Ellipse? ==> r.center == rot(s.center, origin, degrees) && r.radius == s.radius
    ensures !r.Ellipse? ==>
      |r.points| == |s.points| &&
      forall i :: 0 <= i < |s.points| ==> r.points[i] == rot(s.points[i], origin, degrees)
  {
    match s
    case Ellipse(fill, center, radius) => Ellipse(fill, rot(center, origin, degrees), radius)
    case Polygon(fill, points) =>
      Polygon(fill, MapPoints(points, (p: Point) => rot(p, origin, degrees)))
    case Polyline(fill, points, stroke) =>
      Polyline(fill, MapPoints(points, (p: Point) => rot(p, origin, degrees)), stroke)
  }

  /** shape::duplicate: a copy built from the stored colour(s) and geometry. */
  function Duplicate(s: Shape): (r: Shape)
    ensures r == s
  {
    match s
    case Ellipse(fill, center, radius) => Ellipse(fill, center, radius)
    case Polygon(fill, points) => Polygon(fill, points)
    case Polyline(fill, points, stroke) => Polyline(fill, points, stroke)
  }

  /** The number of values a `std::size_t` holds on a 64-bit target. */
  const SizeRange: nat := 0x1_0000_0000_0000_0000

  /** The loop bound of polyline::draw as written: `points.size() - 1`,
      an unsigned subtraction that wraps around on an empty vector. */
  function PolylineLoopBound(n: nat): (r: nat)
    requires n < SizeRange
    ensures r < SizeRange
    ensures n >= 1 ==> r == n - 1
  {
    (n - 1) % SizeRange
  }

  /** As written, an empty polyline's loop does not stop at once: its first
      iteration reads `points[0]` and `points[1]` of an empty vector. */
  lemma EmptyPolylineOverruns()
    ensures PolylineLoopBound(0) == SizeRange - 1
    ensures PolylineLoopBound(0) > 0
  {
  }

  /** The draw_line calls joining consecutive vertices, in order; no call
      for fewer than two vertices. */
  function Segments(ps: seq<Point>, stroke: Color): (r: seq<Command>)
    ensures |r| == if ps == [] then 0 else |ps| - 1
    ensures forall i :: 0 <= i < |r| ==> r[i] == DrawLine(ps[i], ps[i + 1], stroke)
  {
    if |ps| <= 1 then [] else [DrawLine(ps[0], ps[1], stroke)] + Segments(ps[1..], stroke)
  }

  /** shape::draw: the calls a shape makes on the image. It is a function of
      the shape, so drawing cannot change the shape (the C++ `const`). A
      polyline joins its consecutive vertices; an empty one draws nothing. */
  function Draw(s: Shape): (r: seq<Command>)
    ensures s.Ellipse? ==> r == [DrawEllipse(s.center, s.radius, s.fill)]
    ensures s.Polygon? ==> r == [DrawPolygon(s.points, s.fill)]
    ensures s.Polyline? ==>
      |r| == (if s.points == [] then 0 else |s.points| - 1) &&
      forall i :: 0 <= i < |r| ==> r[i] == DrawLine(s.points[i], s.points[i + 1], s.stroke)
  {
    match s
    case Ellipse(fill, center, radius) => [DrawEllipse(center, radius, fill)]
    case Polygon(fill, points) => [DrawPolygon(points, fill)]
    case Polyline(_, points, stroke) => Segments(points, stroke)
  }

  /** Wherever the loop as written stays in range (at least one vertex), the
      corrected draw makes exactly as many draw_line calls as it iterates. */
  lemma DrawAgreesWithLoop(s: Shape)
    requires s.Polyline? && 1 <= |s.points| < SizeRange
    ensures |Draw(s)| == PolylineLoopBound(|s.points|)
  {
  }

  /** The circle constructor: an ellipse given a centre and a radius pair. */
  function Circle(fill: Color, center: Point, radius: Point): (r: Shape)
    ensures r.Ellipse? && Colours(r) == [fill]
    ensures Draw(r) == [DrawEllipse(center, radius, fill)]
  {
    Ellipse(fill, center, radius)
  }

  /** The rect constructor: a polygon over the given corner points. */
  function Rect(fill: Color, points: seq<Point>): (r: Shape)
    ensures r.Polygon? && Colours(r) == [fill] && r.points == points
    ensures Draw(r) == [DrawPolygon(points, fill)]
  {
    Polygon(fill, points)
  }

  /** The line constructor. Its fill is read from the base object before that
      base is constructed, so the fill is an unspecified colour supplied here
      as `fill`. */
  function Line(fill: Color, points: seq<Point>, stroke: Color): (r: Shape)
    ensures r.Polyline? && Colours(r) == [fill, stroke] && r.points == points
    ensures Draw(r) == Segments(points, stroke)
  {
    Polyline(fill, points, stroke)
  }

  // ---------------------------------------------------------------------
  // Properties relating the transforms and the draw contract.
  // ---------------------------------------------------------------------

  /** Translating by `t` and then by `-t` restores the shape exactly. */
  lemma {:induction false} TranslateRoundTrip(s: Shape, t: Point)
    ensures Translate(Translate(s, t), t.Negate()) == s
  {
    var r := Translate(Translate(s, t), t.Negate());
    if !s.Ellipse? {
      assert r.points == s.points by {
        forall i | 0 <= i < |s.points|
          ensures r.points[i] == s.points[i]
        {
        }
      }
    }
  }

  /** Two translations compose into one by the summed displacement. */
  lemma {:induction false} TranslateCompose(s: Shape, a: Point, b: Point)
    ensures Translate(Translate(s, a), b) == Translate(s, a.Translate(b))
  {
    var l := Translate(Translate(s, a), b);
    var r := Translate(s, a.Translate(b));
    if !s.Ellipse? {
      assert l.points == r.points by {
        forall i | 0 <= i < |s.points|
          ensures l.points[i] == r.points[i]
        {
        }
      }
    }
  }

  /** Scaling by 1 about any origin leaves the shape unchanged. */
  lemma {:induction false} ScaleByOne(s: Shape, origin: Point)
    ensures Scale(s, origin, 1) == s
  {
    var r := Scale(s, origin, 1);
    if !s.Ellipse? {
      assert r.points == s.points by {
        forall i | 0 <= i < |s.points|
          ensures r.points[i] == s.points[i]
        {
        }
      }
    }
  }

  /** Point-level composition of two scalings about one origin. */
  lemma PointScaleCompose(p: Point, origin: Point, a: int, b: int)
    ensures p.Scale(origin, a).Scale(origin, b) == p.Scale(origin, a * b)
  {
    assert (p.x - origin.x) * a * b == (p.x - origin.x) * (a * b);
    assert (p.y - origin.y) * a * b == (p.y - origin.y) * (a * b);
  }

  /** Scaling by `a` and then by `b` about the same origin is scaling by
      `a * b`, for the radius of an ellipse as for every vertex. */
  lemma {:induction false} ScaleCompose(s: Shape, origin: Point, a: int, b: int)
    ensures Scale(Scale(s, origin, a), origin, b) == Scale(s, origin, a * b)
  {
    var l := Scale(Scale(s, origin, a), origin, b);
    var r := Scale(s, origin, a * b);
    if s.Ellipse? {
      PointScaleCompose(s.center, origin, a, b);
      assert s.radius.x * a * b == s.radius.x * (a * b);
      assert s.radius.y * a * b == s.radius.y * (a * b);
    } else {
      assert l.points == r.points by {
        forall i | 0 <= i < |s.points|
          ensures l.points[i] == r.points[i]
        {
          PointScaleCompose(s.points[i], origin, a, b);
        }
      }
    }
  }

  /** If the point rotation is the identity for a full turn about `origin`,
      so is the shape rotation. */
  lemma {:induction false} RotateFullTurn(s: Shape, origin: Point, rot: Rotation)
    requires forall p :: rot(p, origin, 360) == p
    ensures Rotate(s, origin, 360, rot) == s
  {
    var r := Rotate(s, origin, 360, rot);
    if !s.Ellipse? {
      assert r.points == s.points by {
        forall i | 0 <= i < |s.points|
          ensures r.points[i] == s.points[i]
        {
        }
      }
    }
  }

  /** An ellipse with equal radius components (a circle) stays one under
      every transform: the radius scales uniformly and never rotates. */
  lemma CircleStaysCircular(s: Shape, t: Point, origin: Point, v: int, degrees: int, rot: Rotation)
    requires s.Ellipse? && s.radius.x == s.radius.y
    ensures Translate(s, t).radius.x == Translate(s, t).radius.y
    ensures Scale(s, origin, v).radius.x == Scale(s, origin, v).radius.y
    ensures Rotate(s, origin, degrees, rot).radius.x == Rotate(s, origin, degrees, rot).radius.y
  {
  }

  /** A drawing call displaced by `t`. */
  function ShiftCommand(c: Command, t: Point): Command {
    match c
    case DrawEllipse(center, radius, color) => DrawEllipse(center.Translate(t), radius, color)
    case DrawPolygon(points, color) => DrawPolygon(MapPoints(points, TranslateBy(t)), color)
    case DrawLine(from, to, color) => DrawLine(from.Translate(t), to.Translate(t), color)
  }

  /** Drawing a translated shape makes the same calls as drawing the shape,
      each displaced by `t`: same number, same order, same colours. */
  lemma {:induction false} DrawTranslated(s: Shape, t: Point)
    ensures |Draw(Translate(s, t))| == |Draw(s)|
    ensures forall i :: 0 <= i < |Draw(s)| ==> Draw(Translate(s, t))[i] == ShiftCommand(Draw(s)[i], t)
  {
    var moved := Translate(s, t);
    match s
    case Ellipse(fill, center, radius) =>
    case Polygon(fill, points) =>
      var m := MapPoints(points, TranslateBy(t));
      assert moved.points == m by {
        forall i | 0 <= i < |points|
          ensures moved.points[i] == m[i]
        {
        }
      }
      assert Draw(moved) == [ShiftCommand(Draw(s)[0], t)];
    case Polyline(fill, points, stroke) =>
      forall i | 0 <= i < |Draw(s)|
        ensures Draw(moved)[i] == ShiftCommand(Draw(s)[i], t)
      {
        assert Draw(s)[i] == DrawLine(points[i], points[i + 1], stroke);
      }
  }

  /** The derived shapes use their parent's draw: a circle draws one ellipse,
      a rect one polygon, and a two-point line exactly one segment. */
  lemma DerivedShapesDraw(fill: Color, center: Point, radius: Point, corners: seq<Point>, a: Point, b: Point, stroke: Color)
    ensures Draw(Circle(fill, center, radius)) == [DrawEllipse(center, radius, fill)]
    ensures Draw(Rect(fill, corners)) == [DrawPolygon(corners, fill)]
    ensures Draw(Line(fill, [a, b], stroke)) == [DrawLine(a, b, stroke)]
  {
  }
}
