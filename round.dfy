/** A whole round as a function of the inputs of its frames: read the input,
    turn, advance, until a collision, an exit or the end of the inputs. */
module Round {
  import opened Grid
  import opened FoodPlacement
  import opened Input
  import opened Snake

  /** Which of the two games' input rules turns a frame's events into a
      direction. */
  datatype InputRule = NewerRule | OlderRule

  /** What the outside world supplies to one frame: the events pending at its
      start, how a pause entered in it ends, and the raw random values used if
      new food is placed. */
  datatype FrameInput = FrameInput(events: seq<Event>, pauseEnd: PauseEnd, draw: Draw)

  /** Why a round stopped: the snake hit a wall or itself (the game returns
      the score), the player ended the program, or the supplied frames ran
      out (the real loop would go on). */
  datatype RoundEnd = Collision | Quit | FramesExhausted

  /** The end, the state at that moment and, for every completed frame in
      order, whether the snake ate in it. */
  datatype RoundResult = RoundResult(end: RoundEnd, final: RoundState, trace: seq<bool>)

  function Poll(rule: InputRule, direction: Pos, frame: FrameInput): (c: Control)
    ensures c.Steer? ==> c.direction == direction || IsUnit(c.direction)
  {
    match rule
    case NewerRule => FirstArrow(direction, frame.events, frame.pauseEnd)
    case OlderRule => LastArrow(direction, frame.events, frame.pauseEnd)
  }

  /** The number of frames in which the snake ate. */
  function Eaten(trace: seq<bool>): (n: nat)
    ensures n <= |trace|
  {
    if trace == [] then 0 else (if trace[0] then 1 else 0) + Eaten(trace[1..])
  }

  function Run(board: Board, s: RoundState, frames: seq<FrameInput>, rule: InputRule): (r: RoundResult)
    requires board.Valid() && |s.snake| >= 1
    ensures |r.trace| <= |frames|
    ensures r.end == FramesExhausted ==> |r.trace| == |frames|
    ensures |r.final.snake| >= |s.snake| && r.final.score >= s.score
    decreases |frames|
  {
    if frames == [] then RoundResult(FramesExhausted, s, [])
    else
      var control := Poll(rule, s.direction, frames[0]);
      if control.Exit? then RoundResult(Quit, s, [])
      else
        var turned := s.(direction := control.direction);
        var step := Tick(board, turned, frames[0].draw);
        if step.0 == Over then RoundResult(Collision, turned, [])
        else
          var rest := Run(board, step.1, frames[1..], rule);
          rest.(trace := [step.0.ate] + rest.trace)
  }

  /** A result with `trace` put in front of its own trace: what a round
      that has already completed the frames of `trace` goes on to return. */
  function Continued(trace: seq<bool>, r: RoundResult): (c: RoundResult)
    ensures c.end == r.end && c.final == r.final && |c.trace| == |trace| + |r.trace|
  {
    r.(trace := trace + r.trace)
  }

  /** `Run` on its first frame: an exit, a collision, or a completed frame
      followed by the rest of the round. */
  lemma RunFirstFrame(board: Board, s: RoundState, frames: seq<FrameInput>, rule: InputRule, trace: seq<bool>)
    requires board.Valid() && |s.snake| >= 1 && frames != []
    ensures var control := Poll(rule, s.direction, frames[0]);
      var turned := s.(direction := if control.Steer? then control.direction else s.direction);
      var step := Tick(board, turned, frames[0].draw);
      && (control.Exit? ==> Continued(trace, Run(board, s, frames, rule)) == RoundResult(Quit, s, trace))
      && (control.Steer? && step.0 == Over ==>
            Continued(trace, Run(board, s, frames, rule)) == RoundResult(Collision, turned, trace))
      && (control.Steer? && step.0 != Over ==>
            Continued(trace, Run(board, s, frames, rule))
            == Continued(trace + [step.0.ate], Run(board, step.1, frames[1..], rule)))
  {
    var control := Poll(rule, s.direction, frames[0]);
    if control.Steer? {
      var turned := s.(direction := control.direction);
      var step := Tick(board, turned, frames[0].draw);
      if step.0 != Over {
        var rest := Run(board, step.1, frames[1..], rule);
        assert trace + ([step.0.ate] + rest.trace) == (trace + [step.0.ate]) + rest.trace;
      }
    }
  }

  /** The step a frame loop takes: if the round from `start` has so far
      completed the frames of `trace` and stands at `s` before frame `i`,
      frame `i` exits, collides or completes and leaves the loop in the
      same relation before frame `i + 1`. */
  lemma RunNextFrame(board: Board, start: RoundState, frames: seq<FrameInput>, rule: InputRule,
                     i: nat, s: RoundState, trace: seq<bool>)
    requires board.Valid() && |start.snake| >= 1 && |s.snake| >= 1 && i < |frames|
    requires Run(board, start, frames, rule) == Continued(trace, Run(board, s, frames[i..], rule))
    ensures var control := Poll(rule, s.direction, frames[i]);
      var turned := s.(direction := if control.Steer? then control.direction else s.direction);
      var step := Tick(board, turned, frames[i].draw);
      && (control.Exit? ==> Run(board, start, frames, rule) == RoundResult(Quit, s, trace))
      && (control.Steer? && step.0 == Over ==>
            Run(board, start, frames, rule) == RoundResult(Collision, turned, trace))
      && (control.Steer? && step.0 != Over ==>
            Run(board, start, frames, rule)
            == Continued(trace + [step.0.ate], Run(board, step.1, frames[i + 1..], rule)))
  {
    RunFirstFrame(board, s, frames[i..], rule, trace);
    assert frames[i..][0] == frames[i] && frames[i..][1..] == frames[i + 1..];
  }

  /** The invariant holds at the end of a round that starts in it. */
  lemma {:induction false} RunKeepsInvariant(board: Board, s: RoundState, frames: seq<FrameInput>, rule: InputRule)
    requires Invariant(board, s)
    ensures Invariant(board, Run(board, s, frames, rule).final)
    decreases |frames|
  {
    if frames != [] {
      var control := Poll(rule, s.direction, frames[0]);
      if control.Steer? {
        var turned := s.(direction := control.direction);
        assert Invariant(board, turned);
        TickKeepsInvariant(board, turned, frames[0].draw);
        var step := Tick(board, turned, frames[0].draw);
        if step.0 != Over {
          RunKeepsInvariant(board, step.1, frames[1..], rule);
        }
      }
    }
  }

  /** A round whose every segment starts on the board ends with every
      segment on the board, however it ends. */
  lemma {:induction false} RunKeepsAllInBounds(board: Board, s: RoundState, frames: seq<FrameInput>, rule: InputRule)
    requires Invariant(board, s) && AllInBounds(board, s.snake)
    ensures AllInBounds(board, Run(board, s, frames, rule).final.snake)
    decreases |frames|
  {
    if frames != [] {
      var control := Poll(rule, s.direction, frames[0]);
      if control.Steer? {
        var turned := s.(direction := control.direction);
        assert Invariant(board, turned);
        TickKeepsInvariant(board, turned, frames[0].draw);
        TickKeepsAllInBounds(board, turned, frames[0].draw);
        var step := Tick(board, turned, frames[0].draw);
        if step.0 != Over {
          RunKeepsAllInBounds(board, step.1, frames[1..], rule);
        }
      }
    }
  }

  /** On a board at least three cells wide and high, such as the configured
      one, no segment of a fresh round ever leaves the board. */
  lemma {:induction false} RoundStaysInBounds(board: Board, direction: Pos, draw: Draw,
                                              frames: seq<FrameInput>, rule: InputRule)
    requires board.Valid() && IsUnit(direction)
    ensures board.cols >= 3 && board.rows >= 3 ==>
      AllInBounds(board, Run(board, Start(board, direction, RandomPosition(board, draw)), frames, rule).final.snake)
  {
    if board.cols >= 3 && board.rows >= 3 {
      var s := Start(board, direction, RandomPosition(board, draw));
      StartKeepsInvariant(board, direction, RandomPosition(board, draw));
      StartInBounds(board, direction, RandomPosition(board, draw));
      RunKeepsAllInBounds(board, s, frames, rule);
    }
  }

  /** The score at the end is the score at the start plus the number of
      frames in which the snake ate, and the body has grown by as much. */
  lemma {:induction false} RunCountsEaten(board: Board, s: RoundState, frames: seq<FrameInput>, rule: InputRule)
    requires board.Valid() && |s.snake| >= 1
    ensures var r := Run(board, s, frames, rule);
      r.final.score == s.score + Eaten(r.trace) && |r.final.snake| == |s.snake| + Eaten(r.trace)
    decreases |frames|
  {
    if frames != [] {
      var control := Poll(rule, s.direction, frames[0]);
      if control.Steer? {
        var turned := s.(direction := control.direction);
        var step := Tick(board, turned, frames[0].draw);
        if step.0 != Over {
          RunCountsEaten(board, step.1, frames[1..], rule);
          var rest := Run(board, step.1, frames[1..], rule);
          assert ([step.0.ate] + rest.trace)[1..] == rest.trace;
        }
      }
    }
  }

  /** A fresh round: score and length count the eaten frames from zero. */
  lemma {:induction false} RoundScoreIsEaten(board: Board, direction: Pos, draw: Draw,
                                             frames: seq<FrameInput>, rule: InputRule)
    requires board.Valid() && IsUnit(direction)
    ensures var r := Run(board, Start(board, direction, RandomPosition(board, draw)), frames, rule);
      && Invariant(board, r.final)
      && r.final.score == Eaten(r.trace)
      && |r.final.snake| == 2 + Eaten(r.trace)
  {
    var s := Start(board, direction, RandomPosition(board, draw));
    StartKeepsInvariant(board, direction, RandomPosition(board, draw));
    RunKeepsInvariant(board, s, frames, rule);
    RunCountsEaten(board, s, frames, rule);
  }

  /** Running on `frames + more` is running on `frames` and, if those ran
      out, going on with `more` from where they left the round. */
  predicate Extends(board: Board, s: RoundState, frames: seq<FrameInput>, more: seq<FrameInput>, rule: InputRule)
    requires board.Valid() && |s.snake| >= 1
  {
    var r := Run(board, s, frames, rule);
    && (r.end == FramesExhausted ==>
          Run(board, s, frames + more, rule) == Continued(r.trace, Run(board, r.final, more, rule)))
    && (r.end != FramesExhausted ==> Run(board, s, frames + more, rule) == r)
  }

  /** Adding frames after a round has stopped changes nothing; adding them
      to a round cut short by the supply only extends it. */
  lemma {:induction false} RunExtends(board: Board, s: RoundState, frames: seq<FrameInput>,
                                      more: seq<FrameInput>, rule: InputRule)
    requires board.Valid() && |s.snake| >= 1
    ensures Extends(board, s, frames, more, rule)
    decreases |frames|
  {
    if frames == [] {
      ExtendsNothing(board, s, more, rule);
    } else {
      var control := Poll(rule, s.direction, frames[0]);
      if control.Steer? {
        var step := Tick(board, s.(direction := control.direction), frames[0].draw);
        if step.0 != Over {
          RunExtends(board, step.1, frames[1..], more, rule);
        }
      }
      ExtendsFirstFrame(board, s, frames, more, rule);
    }
  }

  lemma ExtendsNothing(board: Board, s: RoundState, more: seq<FrameInput>, rule: InputRule)
    requires board.Valid() && |s.snake| >= 1
    ensures Extends(board, s, [], more, rule)
  {
    assert [] + more == more;
    var rest := Run(board, s, more, rule);
    assert [] + rest.trace == rest.trace;
  }

  /** One frame of the induction behind `RunExtends`. */
  lemma ExtendsFirstFrame(board: Board, s: RoundState, frames: seq<FrameInput>,
                          more: seq<FrameInput>, rule: InputRule)
    requires board.Valid() && |s.snake| >= 1 && frames != []
    requires var control := Poll(rule, s.direction, frames[0]);
      control.Steer? ==>
        var step := Tick(board, s.(direction := control.direction), frames[0].draw);
        step.0 != Over ==> Extends(board, step.1, frames[1..], more, rule)
    ensures Extends(board, s, frames, more, rule)
  {
    var all := frames + more;
    assert all[0] == frames[0] && all[1..] == frames[1..] + more;
    var control := Poll(rule, s.direction, frames[0]);
    if control.Steer? {
      var step := Tick(board, s.(direction := control.direction), frames[0].draw);
      if step.0 != Over {
        var tail := Run(board, step.1, frames[1..], rule);
        if tail.end == FramesExhausted {
          var rest := Run(board, tail.final, more, rule);
          assert [step.0.ate] + (tail.trace + rest.trace) == ([step.0.ate] + tail.trace) + rest.trace;
        }
      }
    }
  }
}
