/**
 * The two UnityEngine value types the windows use, with real arithmetic. A Rect stores
 * its position and size; xMin/yMin are the position, xMax/yMax the position plus the
 * size, each edge setter keeps the opposite edge where it was, and Contains is closed
 * on the min edges and open on the max edges.
 */
module Geometry {

  datatype Vec2 = Vec2(x: real, y: real)
  {
    function Plus(o: Vec2): Vec2 { Vec2(x + o.x, y + o.y) }
  }

  const Zero: Vec2 := Vec2(0.0, 0.0)

  function Max(a: real, b: real): (r: real)
    ensures r >= a && r >= b && (r == a || r == b)
  {
    if a >= b then a else b
  }

  function Min(a: real, b: real): (r: real)
    ensures r <= a && r <= b && (r == a || r == b)
  {
    if a <= b then a else b
  }

  datatype Rect = Rect(x: real, y: real, width: real, height: real)
  {
    function XMin(): real { x }
    function YMin(): real { y }
    function XMax(): real { x + width }
    function YMax(): real { y + height }

    /** The `xMin` setter: moves the left edge and keeps the right one. */
    function WithXMin(v: real): (r: Rect)
      ensures r.XMin() == v && r.XMax() == XMax() && r.YMin() == YMin() && r.YMax() == YMax()
    {
      Rect(v, y, XMax() - v, height)
    }

    /** The `xMax` setter: moves the right edge and keeps the left one. */
    function WithXMax(v: real): (r: Rect)
      ensures r.XMax() == v && r.XMin() == XMin() && r.YMin() == YMin() && r.YMax() == YMax()
    {
      Rect(x, y, v - x, height)
    }

    function WithYMin(v: real): (r: Rect)
      ensures r.YMin() == v && r.YMax() == YMax() && r.XMin() == XMin() && r.XMax() == XMax()
    {
      Rect(x, v, width, YMax() - v)
    }

    function WithYMax(v: real): (r: Rect)
      ensures r.YMax() == v && r.YMin() == YMin() && r.XMin() == XMin() && r.XMax() == XMax()
    {
      Rect(x, y, width, v - y)
    }

    predicate Contains(p: Vec2) {
      XMin() <= p.x < XMax() && YMin() <= p.y < YMax()
    }
  }

  /** A rect is determined by its four edges. */
  lemma EdgesDetermine(a: Rect, b: Rect)
    requires a.XMin() == b.XMin() && a.XMax() == b.XMax() && a.YMin() == b.YMin() && a.YMax() == b.YMax()
    ensures a == b
  {
  }
}
