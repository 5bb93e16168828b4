/** Grid geometry shared by every part of the game: cells, the board and the
    four unit directions the snake can move in. */
module Grid {

  /** A grid cell, column `x` and row `y`; the tuple `(x, y)` of the game. */
  datatype Pos = Pos(x: int, y: int)

  /** The playing field of `cols` columns and `rows` rows. Only its
      dimensions matter to the game logic; its cell size is drawing detail. */
  datatype Board = Board(cols: int, rows: int) {

    /** A board on which a cell can be drawn at random (`randrange` needs a
        non-empty range). */
    predicate Valid() {
      cols > 0 && rows > 0
    }

    /** The bounds test of the collision check. */
    predicate Contains(p: Pos) {
      0 <= p.x < cols && 0 <= p.y < rows
    }

    /** Where a new snake puts its head: `(cols // 2, rows // 2)`. */
    function Center(): (c: Pos)
      requires Valid()
      ensures Contains(c)
      ensures 0 <= c.x && 2 * c.x <= cols && 0 <= c.y && 2 * c.y <= rows
    {
      Pos(cols / 2, rows / 2)
    }
  }

  /** The configured field: 30 columns by 30 rows. */
  const GridCols: int := 30
  const GridRows: int := 30
  const Config: Board := Board(GridCols, GridRows)

  const Up: Pos := Pos(0, -1)
  const Down: Pos := Pos(0, 1)
  const Left: Pos := Pos(-1, 0)
  const Right: Pos := Pos(1, 0)

  /** The four directions of movement (rows grow downwards). */
  predicate IsUnit(d: Pos) {
    d == Up || d == Down || d == Left || d == Right
  }

  /** Component-wise sum: `(head_x + dx, head_y + dy)`. */
  function Add(p: Pos, d: Pos): Pos {
    Pos(p.x + d.x, p.y + d.y)
  }

  /** Component-wise difference: the step that leads from `q` to `p`. */
  function Sub(p: Pos, q: Pos): (d: Pos)
    ensures Add(q, d) == p
  {
    Pos(p.x - q.x, p.y - q.y)
  }

  /** `k` unit steps in direction `d` from `p`. */
  function Walk(p: Pos, d: Pos, k: int): Pos {
    Pos(p.x + k * d.x, p.y + k * d.y)
  }

  /** Two cells that share an edge. */
  predicate Adjacent(p: Pos, q: Pos) {
    IsUnit(Sub(p, q))
  }

  /** No cell occurs twice. */
  predicate Distinct(s: seq<Pos>) {
    forall i, j :: 0 <= i < j < |s| ==> s[i] != s[j]
  }

  /** Consecutive cells share an edge: the body is one connected chain. */
  predicate Chained(s: seq<Pos>) {
    forall i :: 0 <= i < |s| - 1 ==> Adjacent(s[i], s[i + 1])
  }

  /** A unit step always lands on a different, adjacent cell, and stepping
      back in the opposite direction returns to the start. */
  lemma UnitStep(p: Pos, d: Pos)
    requires IsUnit(d)
    ensures Add(p, d) != p
    ensures Adjacent(Add(p, d), p) && Adjacent(p, Add(p, d))
    ensures Add(Add(p, d), Pos(-d.x, -d.y)) == p
  {
  }
}
