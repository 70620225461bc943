/** The canvas seen as the trace of drawing calls made on it.

    Rasterisation and saving are done by an image library outside this
    model; a shape's `draw` is modelled as the sequence of calls it makes. */
module Canvas {
  import opened Geometry

  /** One call on the image: draw_ellipse, draw_polygon or draw_line. */
  datatype Command =
    | DrawEllipse(center: Point, radius: Point, color: Color)
    | DrawPolygon(points: seq<Point>, color: Color)
    | DrawLine(from: Point, to: Point, color: Color)

  /** An image of the given size together with every call made on it, in order. */
  datatype Image = Image(width: int, height: int, trace: seq<Command>)
}
