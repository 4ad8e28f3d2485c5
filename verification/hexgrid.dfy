/** The offset hexagonal grid of the bubble shooter: integer cells
    `(xCount, yCount)` and their six neighbours, whose diagonal columns depend
    on the parity of the row. */
module HexGrid {

  /** A grid cell: `x` is the column (`xCount`), `y` the row (`yCount`). */
  datatype Cell = Cell(x: int, y: int)

  /** Row parity as Python's `%` computes it (floored, so never negative);
      Dafny's `%` agrees with it on every integer. */
  function Parity(y: int): (p: int)
    ensures p == 0 || p == 1
    ensures (y + p) % 2 == 0
  {
    y % 2
  }

  /** Row parity as JavaScript's `%` computes it: the remainder takes the sign
      of the dividend, so odd negative rows give -1. */
  function JsParity(y: int): (p: int)
    ensures y >= 0 ==> p == Parity(y)
    ensures y < 0 && y % 2 == 1 ==> p == -1
    ensures y % 2 == 0 ==> p == 0
  {
    if y >= 0 then y % 2 else -((-y) % 2)
  }

  /** The neighbours of a cell in the order the source lists them: left,
      right, then the two diagonal cells of the row above and of the row
      below, shifted one column right on odd rows. */
  function Neighbors(c: Cell): (ns: seq<Cell>)
    ensures |ns| == 6
  {
    var p := Parity(c.y);
    [Cell(c.x - 1, c.y), Cell(c.x + 1, c.y),
     Cell(c.x - 1 + p, c.y - 1), Cell(c.x + p, c.y - 1),
     Cell(c.x - 1 + p, c.y + 1), Cell(c.x + p, c.y + 1)]
  }

  /** The same list computed with JavaScript's truncating `%`. */
  function JsNeighbors(c: Cell): (ns: seq<Cell>)
    ensures |ns| == 6
  {
    var p := JsParity(c.y);
    [Cell(c.x - 1, c.y), Cell(c.x + 1, c.y),
     Cell(c.x - 1 + p, c.y - 1), Cell(c.x + p, c.y - 1),
     Cell(c.x - 1 + p, c.y + 1), Cell(c.x + p, c.y + 1)]
  }

  /** `b` is one of the six neighbours of `a`. */
  predicate Adjacent(a: Cell, b: Cell) {
    b in Neighbors(a)
  }

  /** The six neighbours are exactly the two cells beside `c` and, in each of
      rows `y-1` and `y+1`, the columns `x-1+p` and `x+p` where `p` is the row
      parity; there are six distinct ones and `c` is never among them. */
  lemma NeighborsCharacterized(c: Cell, d: Cell)
    ensures Adjacent(c, d) <==>
      (d.y == c.y && (d.x == c.x - 1 || d.x == c.x + 1)) ||
      ((d.y == c.y - 1 || d.y == c.y + 1) &&
       (d.x == c.x - 1 + Parity(c.y) || d.x == c.x + Parity(c.y)))
    ensures !Adjacent(c, c)
    ensures forall i, j | 0 <= i < j < 6 :: Neighbors(c)[i] != Neighbors(c)[j]
  {
  }

  /** The JavaScript list agrees with the Python one on every cell that can be
      occupied (rows are never negative), and differs from it on odd negative
      rows. */
  lemma JsNeighborsAgree(c: Cell)
    ensures c.y >= 0 ==> JsNeighbors(c) == Neighbors(c)
    ensures c.y < 0 && c.y % 2 == 1 ==> JsNeighbors(c) != Neighbors(c)
  {
    if c.y < 0 && c.y % 2 == 1 {
      assert JsNeighbors(c)[2].x == c.x - 2 != Neighbors(c)[2].x;
    }
  }

  /** Adjacency is symmetric: if `b` is a neighbour of `a` then `a` is a
      neighbour of `b`.  It holds on every row because the floored parity
      alternates on negative rows too. */
  lemma {:induction false} AdjacentSymmetric(a: Cell, b: Cell)
    requires Adjacent(a, b)
    ensures Adjacent(b, a)
  {
    var p := Parity(a.y);
    if b.y != a.y {
      assert Parity(b.y) == 1 - p;
      assert b.x == a.x - 1 + p || b.x == a.x + p;
      if b.x == a.x - 1 + p {
        assert a.x == b.x + Parity(b.y) - 0 || a.x == b.x - 1 + Parity(b.y);
      }
    }
  }

  /** With JavaScript's parity the relation is symmetric only while both
      cells have a row that is not negative: row 0 and row -1 disagree. */
  lemma JsAdjacencyAsymmetricAboveRowZero()
    ensures Cell(0, -1) in JsNeighbors(Cell(0, 0))
    ensures Cell(0, 0) !in JsNeighbors(Cell(0, -1))
  {
    assert JsParity(-1) == -1;
    assert JsNeighbors(Cell(0, -1)) == [Cell(-1, -1), Cell(1, -1), Cell(-2, -2), Cell(-1, -2), Cell(-2, 0), Cell(-1, 0)];
  }
}
