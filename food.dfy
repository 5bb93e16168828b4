/** Food placement: a single cell drawn uniformly inside the board, fixed
    for the lifetime of the `Food` object. Respawning builds a new object. */
module FoodPlacement {
  import opened Grid

  /** The raw values the random source hands to the two `randrange` calls.
      `randrange(0, n)` is modelled as the raw value reduced modulo `n`, which
      reaches every value of the range. */
  datatype Draw = Draw(x: nat, y: nat)

  /** `random_position`: `x` in `[0, cols)`, `y` in `[0, rows)`. The snake is
      not consulted: the cell may lie under the body. */
  function RandomPosition(board: Board, draw: Draw): (p: Pos)
    requires board.Valid()
    ensures board.Contains(p)
  {
    Pos(draw.x % board.cols, draw.y % board.rows)
  }

  /** Every cell of the board is a possible outcome of the placement, so the
      only thing the game may rely on is that the food is in bounds. */
  lemma {:induction false} EveryCellReachable(board: Board, p: Pos)
    requires board.Valid() && board.Contains(p)
    ensures exists draw :: RandomPosition(board, draw) == p
  {
    var draw := Draw(p.x, p.y);
    assert draw.x % board.cols == p.x;
    assert draw.y % board.rows == p.y;
    assert RandomPosition(board, draw) == p;
  }

  /** A placed piece of food. Both fields are set once by the constructor. */
  class Food {
    const board: Board
    const position: Pos

    constructor (board: Board, draw: Draw)
      requires board.Valid()
      ensures this.board == board
      ensures position == RandomPosition(board, draw)
      ensures board.Contains(position)
    {
      this.board := board;
      position := RandomPosition(board, draw);
    }
  }
}
