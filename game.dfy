/** The newer game: input handled by `handle_input`, which returns at the
    first key it knows, and the round loop of `play`. */
module Game {
  import opened Grid
  import opened FoodPlacement
  import opened Input
  import opened Snake
  import opened Round

  /** Scans the frame's events in order and returns at the first decisive
      one: SPACE pauses and keeps the direction, an arrow gives its
      direction, the close request, X and ESC exit. */
  method HandleInput(direction: Pos, events: seq<Event>, pauseEnd: PauseEnd) returns (c: Control)
    ensures c == FirstArrow(direction, events, pauseEnd)
  {
    for i := 0 to |events|
      invariant FirstArrow(direction, events, pauseEnd) == FirstArrow(direction, events[i..], pauseEnd)
    {
      assert events[i..][1..] == events[i + 1..];
      match events[i]
      case QuitEvent =>
        return Exit;
      case KeyDown(key) =>
        if key == Space {
          if pauseEnd == QuitInPause {
            return Exit;
          }
          return Steer(direction);
        } else if key == ArrowUp {
          return Steer(Up);
        } else if key == ArrowDown {
          return Steer(Down);
        } else if key == ArrowLeft {
          return Steer(Left);
        } else if key == ArrowRight {
          return Steer(Right);
        } else if key == LetterX || key == Escape {
          return Exit;
        }
      case OtherEvent =>
    }
    return Steer(direction);
  }

  /** The body of one frame: the input through `handle_input`, then, unless it exits, the turn
      and the step of the snake. */
  method PlayFrame(round: SnakeRound, frame: FrameInput) returns (control: Control, outcome: StepOutcome)
    requires round.Valid()
    modifies round
    ensures round.Valid()
    ensures control == Poll(NewerRule, old(round.State()).direction, frame)
    ensures control.Exit? ==> round.State() == old(round.State())
    ensures control.Steer? ==>
      (outcome, round.State()) == Tick(round.board, old(round.State()).(direction := control.direction), frame.draw)
  {
    ghost var before := round.State();
    control := HandleInput(round.direction, frame.events, frame.pauseEnd);
    if control.Exit? {
      return control, Over;
    }
    TurnKeepsInvariant(round.board, before, control.direction);
    round.direction := control.direction;
    assert round.State() == before.(direction := control.direction);
    outcome := round.Step(frame.draw);
  }

  /** One round from the start direction chosen on the start screen;
      `foodDraw` places the first food. Each frame reads the input, turns
      and advances the snake, until a collision, an exit or the end of the
      supplied frames. */
  method Play(board: Board, initialDirection: Pos, foodDraw: Draw, frames: seq<FrameInput>)
    returns (r: RoundResult)
    requires board.Valid() && IsUnit(initialDirection)
    ensures r == Run(board, Start(board, initialDirection, RandomPosition(board, foodDraw)), frames, NewerRule)
    ensures Invariant(board, r.final)
    ensures r.final.score == Eaten(r.trace)
    ensures board.cols >= 3 && board.rows >= 3 ==> AllInBounds(board, r.final.snake)
  {
    var round := new SnakeRound(board, initialDirection, foodDraw);
    ghost var start := round.State();
    ghost var whole := Run(board, start, frames, NewerRule);
    RoundScoreIsEaten(board, initialDirection, foodDraw, frames, NewerRule);
    RoundStaysInBounds(board, initialDirection, foodDraw, frames, NewerRule);
    var trace: seq<bool> := [];
    var i := 0;
    assert frames[i..] == frames;
    while i < |frames|
      invariant 0 <= i <= |frames|
      invariant round.Valid() && round.board == board
      invariant whole == Continued(trace, Run(board, round.State(), frames[i..], NewerRule))
    {
      RunNextFrame(board, start, frames, NewerRule, i, round.State(), trace);
      var control, outcome := PlayFrame(round, frames[i]);
      if control.Exit? {
        return RoundResult(Quit, round.State(), trace);
      }
      if outcome == Over {
        return RoundResult(Collision, round.State(), trace);
      }
      trace := trace + [outcome.ate];
      i := i + 1;
    }
    assert trace + [] == trace;
    r := RoundResult(FramesExhausted, round.State(), trace);
  }
}
