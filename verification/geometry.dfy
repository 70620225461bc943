/** Points, colours and the point-level transforms the shapes are built on.

    The point and colour types are declared in headers that are not part of
    this model. `Point.Translate` and `Point.Scale` are given their obvious
    integer meaning as an ASSUMPTION; rotation stays uninterpreted and is
    passed around as a `Rotation` value. */
module Geometry {

  /** A 2D integer coordinate (also used for an ellipse's radius pair). */
  datatype Point = Point(x: int, y: int) {

    /** Assumed meaning of point::translate: component-wise addition. */
    function Translate(t: Point): Point {
      Point(x + t.x, y + t.y)
    }

    /** Assumed meaning of point::scale: integer scaling about `origin`. */
    function Scale(origin: Point, v: int): Point {
      Point(origin.x + (x - origin.x) * v, origin.y + (y - origin.y) * v)
    }

    /** The opposite displacement. */
    function Negate(): Point {
      Point(-x, -y)
    }
  }

  /** point::rotate(origin, degrees) applied to a point; its body is unseen,
      so every operation that rotates takes it as a parameter. Arguments:
      the point, the origin, the angle in degrees. */
  type Rotation = (Point, Point, int) -> Point

  /** One 8-bit colour channel. */
  type Byte = b: int | 0 <= b < 256

  /** An RGB colour. */
  datatype Color = Color(red: Byte, green: Byte, blue: Byte)
}
