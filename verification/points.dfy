/** class_1's Point: a position on the integer plane, moved either into a
    new point by a displacement point or in place by two offsets. */
module Points {
  datatype Point = Point(x: int, y: int)

  /** `move(d)`: a new point displaced from p by d; p itself is untouched. */
  function Move(p: Point, d: Point): (r: Point)
    ensures r.x - p.x == d.x && r.y - p.y == d.y
  {
    Point(p.x + d.x, p.y + d.y)
  }

  /** `move(dx, dy)`: the point's own coordinates shifted by the offsets;
      the state after the call. */
  function MoveInPlace(p: Point, dx: int, dy: int): (r: Point)
    ensures r == Move(p, Point(dx, dy))
  {
    p.(x := p.x + dx, y := p.y + dy)
  }

  /** `__eq__`: the coordinates agree. */
  function Equals(p: Point, q: Point): (r: bool)
    ensures r <==> p == q
  {
    p.x == q.x && p.y == q.y
  }

  /** The displacement that undoes d. */
  function Opposite(d: Point): Point {
    Point(-d.x, -d.y)
  }

  /** Moving by d and then by its opposite returns to the start. */
  lemma MoveUndo(p: Point, d: Point)
    ensures Move(Move(p, d), Opposite(d)) == p
  {
  }

  /** Two moves in a row are one move by the summed displacement. */
  lemma MoveCompose(p: Point, d: Point, e: Point)
    ensures Move(Move(p, d), e) == Move(p, Move(d, e))
  {
  }

  /** Moving is injective: different starting points stay different. */
  lemma MoveInjective(p: Point, q: Point, d: Point)
    ensures Equals(Move(p, d), Move(q, d)) <==> Equals(p, q)
  {
  }

  /** The module's own example: (3, 4) moved by (5, 6) is (8, 10), and
      (3, 4) moved in place by 2, 2 is (5, 6). */
  lemma MoveExample(p: Point, v: Point)
    requires p == Point(3, 4) && v == Point(5, 6)
    ensures Move(p, v) == Point(8, 10)
    ensures MoveInPlace(p, 2, 2) == Point(5, 6)
  {
  }
}
