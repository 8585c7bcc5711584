/** Points and rectangles of pixels. */
module Points {
  datatype Point = Point(x: int, y: int) {
    function Plus(that: Point): Point {
      Point(x + that.x, y + that.y)
    }

    function Minus(that: Point): Point {
      Point(x - that.x, y - that.y)
    }

    predicate AtMost(that: Point) {
      x <= that.x && y <= that.y
    }
  }

  datatype Rect = Rect(pos: Point, dim: Point) {
    function BottomRight(): Point {
      pos.Plus(dim)
    }

    predicate HasPositiveArea() {
      dim.x > 0 && dim.y > 0
    }

    predicate IsPointInsideInclusive(p: Point) {
      pos.AtMost(p) && p.AtMost(BottomRight())
    }

    predicate IsThisInside(that: Rect) {
      that.pos.AtMost(pos) && BottomRight().AtMost(that.BottomRight())
    }

    /** Neither the corner nor the size is negative. */
    predicate IsProper() {
      Point(0, 0).AtMost(pos) && Point(0, 0).AtMost(dim)
    }
  }
}
