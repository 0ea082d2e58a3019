/** Points, sizes and rectangles as Mir defines them: a rectangle holds its top and left edges and ends just
    before its bottom and right edges. */
module Geometry {

  datatype Point = Point(x: int, y: int)

  datatype Displacement = Displacement(dx: int, dy: int)

  datatype Size = Size(width: int, height: int) {
    predicate HasArea() { width > 0 && height > 0 }
  }

  datatype Rectangle = Rectangle(topLeft: Point, size: Size) {
    function Left(): int { topLeft.x }

    function Top(): int { topLeft.y }

    function Right(): int { topLeft.x + size.width }

    function Bottom(): int { topLeft.y + size.height }

    predicate Contains(r: Rectangle) {
      Left() <= r.Left() && r.Right() <= Right() && Top() <= r.Top() && r.Bottom() <= Bottom()
    }

    predicate Overlaps(r: Rectangle) {
      Left() < r.Right() && r.Left() < Right() && Top() < r.Bottom() && r.Top() < Bottom()
    }

    function Intersection(r: Rectangle): Rectangle
      requires Overlaps(r)
    {
      var left, top := Max(Left(), r.Left()), Max(Top(), r.Top());
      Rectangle(Point(left, top), Size(Min(Right(), r.Right()) - left, Min(Bottom(), r.Bottom()) - top))
    }
  }

  function Min(a: int, b: int): int { if a < b then a else b }

  function Max(a: int, b: int): int { if a < b then b else a }

  function Shift(p: Point, d: Displacement): Point { Point(p.x + d.dx, p.y + d.dy) }

  function Between(from: Point, to: Point): Displacement { Displacement(to.x - from.x, to.y - from.y) }
}
