/** Integer grid coordinates (src/cell_position.rs). */
module CellPositions {

  /** A cell of the puzzle grid; `y` grows downwards, row 0 is the top row. */
  datatype CellPosition = CellPosition(x: int, y: int) {

    /** The position translated by `(dx, dy)`. */
    function Add(dx: int, dy: int): (r: CellPosition)
      ensures r.x == x + dx && r.y == y + dy
    {
      CellPosition(x + dx, y + dy)
    }
  }

  /** Translating by `(0, 0)` is the identity. */
  lemma AddZero(p: CellPosition)
    ensures p.Add(0, 0) == p
  {
  }

  /** Two translations compose into one. */
  lemma AddCompose(p: CellPosition, a: int, b: int, c: int, d: int)
    ensures p.Add(a, b).Add(c, d) == p.Add(a + c, b + d)
  {
  }

  /** Equality of positions is equality of both coordinates. */
  lemma EqualIffSameCoordinates(p: CellPosition, q: CellPosition)
    ensures p == q <==> p.x == q.x && p.y == q.y
  {
  }
}
