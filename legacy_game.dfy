/** The older game: `play` scans all of a frame's events inline, letting
    each arrow overwrite the direction, and then runs the same movement
    rule as the newer game. */
module LegacyGame {
  import opened Grid
  import opened FoodPlacement
  import opened Input
  import opened Snake
  import opened Round

  /** The inline event loop of one frame: every event is looked at, an
      arrow overwrites the direction, SPACE pauses and ends the scan, the
      close request, X and ESC exit. */
  method PollEvents(direction: Pos, events: seq<Event>, pauseEnd: PauseEnd) returns (c: Control)
    ensures c == LastArrow(direction, events, pauseEnd)
  {
    var current := direction;
    var i := 0;
    while i < |events|
      invariant 0 <= i <= |events|
      invariant LastArrow(direction, events, pauseEnd) == LastArrow(current, events[i..], pauseEnd)
    {
      assert events[i..][1..] == events[i + 1..];
      match events[i] {
        case QuitEvent =>
          return Exit;
        case KeyDown(key) =>
          if key == Space {
            if pauseEnd == QuitInPause {
              return Exit;
            }
            break;
          }
          if key == ArrowUp {
            current := Up;
          } else if key == ArrowDown {
            current := Down;
          } else if key == ArrowLeft {
            current := Left;
          } else if key == ArrowRight {
            current := Right;
          } else if key == LetterX || key == Escape {
            return Exit;
          }
        case OtherEvent =>
      }
      i := i + 1;
    }
    return Steer(current);
  }

  /** The body of one frame: the inline event scan, then, unless it exits, the turn
      and the step of the snake. */
  method PlayFrame(round: SnakeRound, frame: FrameInput) returns (control: Control, outcome: StepOutcome)
    requires round.Valid()
    modifies round
    ensures round.Valid()
    ensures control == Poll(OlderRule, old(round.State()).direction, frame)
    ensures control.Exit? ==> round.State() == old(round.State())
    ensures control.Steer? ==>
      (outcome, round.State()) == Tick(round.board, old(round.State()).(direction := control.direction), frame.draw)
  {
    ghost var before := round.State();
    control := PollEvents(round.direction, frame.events, frame.pauseEnd);
    if control.Exit? {
      return control, Over;
    }
    TurnKeepsInvariant(round.board, before, control.direction);
    round.direction := control.direction;
    assert round.State() == before.(direction := control.direction);
    outcome := round.Step(frame.draw);
  }

  /** One round of the older game; the same loop as the newer one with the
      inline event scan in place of `handle_input`. */
  method Play(board: Board, initialDirection: Pos, foodDraw: Draw, frames: seq<FrameInput>)
    returns (r: RoundResult)
    requires board.Valid() && IsUnit(initialDirection)
    ensures r == Run(board, Start(board, initialDirection, RandomPosition(board, foodDraw)), frames, OlderRule)
    ensures Invariant(board, r.final)
    ensures r.final.score == Eaten(r.trace)
    ensures board.cols >= 3 && board.rows >= 3 ==> AllInBounds(board, r.final.snake)
  {
    var round := new SnakeRound(board, initialDirection, foodDraw);
    ghost var start := round.State();
    ghost var whole := Run(board, start, frames, OlderRule);
    RoundScoreIsEaten(board, initialDirection, foodDraw, frames, OlderRule);
    RoundStaysInBounds(board, initialDirection, foodDraw, frames, OlderRule);
    var trace: seq<bool> := [];
    var i := 0;
    assert frames[i..] == frames;
    while i < |frames|
      invariant 0 <= i <= |frames|
      invariant round.Valid() && round.board == board
      invariant whole == Continued(trace, Run(board, round.State(), frames[i..], OlderRule))
    {
      RunNextFrame(board, start, frames, OlderRule, i, round.State(), trace);
      var control, outcome := PlayFrame(round, frames[i]);
      if control.Exit? {
        return RoundResult(Quit, round.State(), trace);
      }
      if outcome == Over {
        return RoundResult(Collision, round.State(), trace);
      }
      trace := trace + [outcome.ate];
      i := i + 1;
    }
    assert trace + [] == trace;
    r := RoundResult(FramesExhausted, round.State(), trace);
  }
}
