/** One round's state and the rule that advances it by one frame: move the
    head, end the round on a wall or the body, grow on food, otherwise drop
    the tail. */
module Snake {
  import opened Grid
  import opened FoodPlacement

  /** The round's state: the body head first, the direction it moves in, the
      food cell and the number of pieces eaten. */
  datatype RoundState = RoundState(snake: seq<Pos>, direction: Pos, food: Pos, score: nat)

  /** What one frame did: the snake moved (and `ate` tells whether it ate),
      or it hit a wall or itself and the round is over. */
  datatype StepOutcome = Continue(ate: bool) | Over

  /** The state a round starts from: the head at the centre and one segment
      behind it, opposite to the start direction. */
  function Start(board: Board, direction: Pos, food: Pos): (s: RoundState)
    requires board.Valid()
    ensures |s.snake| == 2 && s.score == 0 && s.direction == direction && s.food == food
    ensures s.snake[0] == board.Center() && Add(s.snake[1], direction) == s.snake[0]
  {
    var head := board.Center();
    RoundState([head, Pos(head.x - direction.x, head.y - direction.y)], direction, food, 0)
  }

  /** What holds of the state between frames. Every segment is in bounds
      except possibly the last: the tail a new snake starts with may lie
      off a board less than three cells wide or high. */
  predicate Invariant(board: Board, s: RoundState) {
    board.Valid()
    && IsUnit(s.direction)
    && |s.snake| == 2 + s.score
    && Distinct(s.snake)
    && Chained(s.snake)
    && (forall i :: 0 <= i < |s.snake| - 1 ==> board.Contains(s.snake[i]))
    && board.Contains(s.food)
  }

  /** Turning to any unit direction keeps the invariant. */
  lemma TurnKeepsInvariant(board: Board, s: RoundState, direction: Pos)
    requires Invariant(board, s) && IsUnit(direction)
    ensures Invariant(board, s.(direction := direction))
  {
  }

  /** Every segment on the board, the last one included. */
  predicate AllInBounds(board: Board, s: seq<Pos>) {
    forall i :: 0 <= i < |s| ==> board.Contains(s[i])
  }

  /** One frame of movement in `s.direction`; `draw` places the new food if
      the snake eats. */
  function Tick(board: Board, s: RoundState, draw: Draw): (r: (StepOutcome, RoundState))
    requires board.Valid() && |s.snake| >= 1
    ensures var head := Add(s.snake[0], s.direction);
      && (r.0 == Over <==> !board.Contains(head) || head in s.snake)
      && (r.0 == Over ==> r.1 == s)
      && (r.0.Continue? ==>
            && r.1.direction == s.direction
            && (r.0.ate <==> head == s.food)
            && |r.1.snake| == |s.snake| + (if r.0.ate then 1 else 0)
            && r.1.snake[0] == head
            && (forall i :: 1 <= i < |r.1.snake| ==> r.1.snake[i] == s.snake[i - 1])
            && r.1.score == s.score + (if r.0.ate then 1 else 0)
            && r.1.food == (if r.0.ate then RandomPosition(board, draw) else s.food))
  {
    var head := Add(s.snake[0], s.direction);
    if !board.Contains(head) || head in s.snake then
      (Over, s)
    else if head == s.food then
      (Continue(true), s.(snake := [head] + s.snake, score := s.score + 1,
                          food := RandomPosition(board, draw)))
    else
      (Continue(false), s.(snake := ([head] + s.snake)[..|s.snake|]))
  }

  lemma {:induction false} StartKeepsInvariant(board: Board, direction: Pos, food: Pos)
    requires board.Valid() && IsUnit(direction) && board.Contains(food)
    ensures Invariant(board, Start(board, direction, food))
  {
    var s := Start(board, direction, food);
    UnitStep(s.snake[1], direction);
  }

  /** On a board at least three cells each way, like the configured 30 by
      30, the whole starting snake is on the board. */
  lemma {:induction false} StartInBounds(board: Board, direction: Pos, food: Pos)
    requires board.cols >= 3 && board.rows >= 3 && IsUnit(direction)
    ensures AllInBounds(board, Start(board, direction, food).snake)
  {
    var s := Start(board, direction, food);
    assert s.snake[1] == Pos(s.snake[0].x - direction.x, s.snake[0].y - direction.y);
  }

  /** A completed frame keeps the invariant: one more segment and one more
      point on food, the same length otherwise; the head has moved one unit
      step away from the old head, which is now the second segment. */
  lemma {:induction false} TickKeepsInvariant(board: Board, s: RoundState, draw: Draw)
    requires Invariant(board, s)
    ensures Invariant(board, Tick(board, s, draw).1)
    ensures Tick(board, s, draw).1.score >= s.score
    ensures var r := Tick(board, s, draw);
      r.0.Continue? ==> Sub(r.1.snake[0], r.1.snake[1]) == s.direction
  {
    var r := Tick(board, s, draw);
    if r.0.Continue? {
      var t := r.1.snake;
      var head := t[0];
      assert head !in s.snake;
      forall i, j | 0 <= i < j < |t| ensures t[i] != t[j] {
        if i == 0 {
          assert t[j] == s.snake[j - 1];
        } else {
          assert t[i] == s.snake[i - 1] && t[j] == s.snake[j - 1];
        }
      }
      forall i | 0 <= i < |t| - 1 ensures Adjacent(t[i], t[i + 1]) {
        if i == 0 {
          assert Sub(t[0], t[1]) == s.direction;
        } else {
          assert t[i] == s.snake[i - 1] && t[i + 1] == s.snake[i];
        }
      }
      forall i | 0 <= i < |t| - 1 ensures board.Contains(t[i]) {
        if i > 0 {
          assert t[i] == s.snake[i - 1];
        }
      }
    }
  }

  /** Once every segment is on the board, every later one is too. */
  lemma {:induction false} TickKeepsAllInBounds(board: Board, s: RoundState, draw: Draw)
    requires Invariant(board, s) && AllInBounds(board, s.snake)
    ensures AllInBounds(board, Tick(board, s, draw).1.snake)
  {
    var r := Tick(board, s, draw);
    if r.0.Continue? {
      forall i | 0 <= i < |r.1.snake| ensures board.Contains(r.1.snake[i]) {
        if i > 0 {
          assert r.1.snake[i] == s.snake[i - 1];
        }
      }
    }
  }

  /** There is no guard against reversing: moving back towards the second
      segment steps onto it and ends the round, whatever the length. */
  lemma {:induction false} ReversalEndsRound(board: Board, s: RoundState, draw: Draw)
    requires board.Valid() && |s.snake| >= 2
    requires s.direction == Sub(s.snake[1], s.snake[0])
    ensures Tick(board, s, draw).0 == Over
  {
    assert Add(s.snake[0], s.direction) == s.snake[1];
  }

  /** The cell the tail is about to leave still counts as body: the self
      check runs before the pop. */
  lemma {:induction false} TailCellCollides(board: Board, s: RoundState, draw: Draw)
    requires board.Valid() && |s.snake| >= 1
    requires Add(s.snake[0], s.direction) == s.snake[|s.snake| - 1]
    ensures Tick(board, s, draw).0 == Over
  {
    assert s.snake[|s.snake| - 1] in s.snake;
  }

  /** Frames without input: the state after `k` frames in the current
      direction, or the state in which the round ended. */
  function Steps(board: Board, s: RoundState, draw: Draw, k: nat): (t: RoundState)
    requires board.Valid() && |s.snake| >= 1
    ensures |t.snake| >= 1 && t.score >= s.score
    decreases k
  {
    if k == 0 then s
    else
      var r := Tick(board, s, draw);
      if r.0 == Over then s else Steps(board, r.1, draw, k - 1)
  }

  /** A two-cell snake on a valid board with its head one unit step ahead
      of its tail, and the `k` cells straight ahead of the head on the board
      and free of food. */
  predicate OpenAhead(board: Board, s: RoundState, k: nat) {
    && board.Valid() && |s.snake| == 2 && IsUnit(s.direction)
    && s.snake[0] == Add(s.snake[1], s.direction)
    && forall j :: 1 <= j <= k ==>
         board.Contains(Walk(s.snake[0], s.direction, j)) && Walk(s.snake[0], s.direction, j) != s.food
  }

  /** A two-cell snake moving straight ahead, with open cells and no food on
      its path, keeps its length and moves its head `k` cells: from
      `[(0, 0), (-1, 0)]` to the right, `k = 20` puts the head at `(20, 0)`
      with two cells. */
  lemma {:induction false} StraightRun(board: Board, s: RoundState, draw: Draw, k: nat)
    requires OpenAhead(board, s, k)
    ensures Steps(board, s, draw, k).snake
         == [Walk(s.snake[0], s.direction, k), Walk(s.snake[0], s.direction, k - 1)]
    ensures Steps(board, s, draw, k).score == s.score
    decreases k
  {
    var h, d := s.snake[0], s.direction;
    if k > 0 {
      var head := Add(h, d);
      assert head == Walk(h, d, 1);
      assert head != h && head != s.snake[1];
      var r := Tick(board, s, draw);
      assert r.0 == Continue(false);
      assert r.1.snake == [head, h];
      forall j | 1 <= j <= k - 1
        ensures board.Contains(Walk(head, d, j)) && Walk(head, d, j) != s.food
      {
        assert Walk(head, d, j) == Walk(h, d, j + 1);
      }
      assert OpenAhead(board, r.1, k - 1);
      StraightRun(board, r.1, draw, k - 1);
      assert Walk(head, d, k - 1) == Walk(h, d, k);
      assert Walk(head, d, k - 2) == Walk(h, d, k - 1);
    } else {
      assert Walk(h, d, -1) == s.snake[1];
    }
  }

  /** A head pushed past the right edge, and a head moved onto the second
      segment of `[(5, 5), (5, 6), (5, 7)]`, both end the round. */
  lemma {:induction false} CollisionExamples(draw: Draw)
    ensures Tick(Config, RoundState([Pos(29, 0)], Right, Pos(0, 0), 0), draw).0 == Over
    ensures Tick(Config, RoundState([Pos(5, 5), Pos(5, 6), Pos(5, 7)], Down, Pos(0, 0), 0), draw).0 == Over
  {
    assert !Config.Contains(Pos(30, 0));
    assert Pos(5, 6) in [Pos(5, 5), Pos(5, 6), Pos(5, 7)];
  }

  /** Up and then down, from `[(5, 5), (5, 6)]` on the configured board: the
      first frame moves the head to `(5, 4)`, the second is a reversal onto
      `(5, 5)` and ends the round. */
  lemma {:induction false} UpThenDownEndsRound(draw: Draw)
    ensures Tick(Config, RoundState([Pos(5, 5), Pos(5, 6)], Up, Pos(29, 29), 0), draw)
         == (Continue(false), RoundState([Pos(5, 4), Pos(5, 5)], Up, Pos(29, 29), 0))
    ensures Tick(Config, RoundState([Pos(5, 4), Pos(5, 5)], Down, Pos(29, 29), 0), draw).0 == Over
  {
    var s := RoundState([Pos(5, 5), Pos(5, 6)], Up, Pos(29, 29), 0);
    assert Pos(5, 4) !in s.snake;
    assert ([Pos(5, 4)] + s.snake)[..2] == [Pos(5, 4), Pos(5, 5)];
    ReversalEndsRound(Config, RoundState([Pos(5, 4), Pos(5, 5)], Down, Pos(29, 29), 0), draw);
  }

  /** The round's state as the game holds it: the body list that `insert`
      and `pop` change in place, the direction, the current food object and
      the score. */
  class SnakeRound {
    const board: Board
    var snake: seq<Pos>
    var direction: Pos
    var food: Food
    var score: nat

    function State(): RoundState
      reads this
    {
      RoundState(snake, direction, food.position, score)
    }

    predicate Valid()
      reads this
    {
      food.board == board && Invariant(board, State())
    }

    constructor (board: Board, initialDirection: Pos, draw: Draw)
      requires board.Valid() && IsUnit(initialDirection)
      ensures this.board == board && food.position == RandomPosition(board, draw)
      ensures State() == Start(board, initialDirection, food.position)
      ensures Valid()
    {
      this.board := board;
      var f := new Food(board, draw);
      var start := Start(board, initialDirection, f.position);
      food := f;
      snake := start.snake;
      direction := start.direction;
      score := start.score;
      new;
      StartKeepsInvariant(board, initialDirection, food.position);
    }

    /** One frame: compute the new head, stop on a wall or the body, else
        insert the head; eat (score and new food) or pop the tail. */
    method Step(draw: Draw) returns (outcome: StepOutcome)
      requires Valid()
      modifies this
      ensures Valid()
      ensures (outcome, State()) == Tick(board, old(State()), draw)
      ensures outcome == Continue(true) ==> fresh(food)
      ensures outcome != Continue(true) ==> food == old(food)
    {
      TickKeepsInvariant(board, State(), draw);
      ghost var next := Tick(board, State(), draw);
      var head := snake[0];
      var newHead := Pos(head.x + direction.x, head.y + direction.y);
      if !(0 <= newHead.x < board.cols && 0 <= newHead.y < board.rows) {
        assert next.0 == Over;
        return Over;
      }
      if newHead in snake {
        assert next.0 == Over;
        return Over;
      }
      snake := [newHead] + snake;
      if newHead == food.position {
        score := score + 1;
        food := new Food(board, draw);
        outcome := Continue(true);
        assert next.1 == State();
      } else {
        snake := snake[..|snake| - 1];
        outcome := Continue(false);
        assert next.1 == State();
      }
    }
  }
}
