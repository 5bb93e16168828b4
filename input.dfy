/** Keyboard input: the events of one frame and the two rules by which the
    game versions turn them into a direction. */
module Input {
  import opened Grid

  datatype Key = ArrowUp | ArrowDown | ArrowLeft | ArrowRight | Space | LetterX | Escape | OtherKey

  /** A pending event: the window's close request, a key press, or anything
      else (mouse motion, key release), which the game ignores. */
  datatype Event = QuitEvent | KeyDown(key: Key) | OtherEvent

  /** How the pause screen entered with SPACE was left: SPACE resumes, the
      close request, X or ESC end the program. */
  datatype PauseEnd = Resumed | QuitInPause

  /** What input processing decides for a frame: keep moving in `direction`,
      or end the program. */
  datatype Control = Steer(direction: Pos) | Exit

  predicate IsArrow(k: Key) {
    k == ArrowUp || k == ArrowDown || k == ArrowLeft || k == ArrowRight
  }

  /** The direction an arrow key selects. */
  function ArrowDirection(k: Key): (d: Pos)
    requires IsArrow(k)
    ensures IsUnit(d)
  {
    match k
    case ArrowUp => Up
    case ArrowDown => Down
    case ArrowLeft => Left
    case ArrowRight => Right
  }

  /** The arrow keys select the four unit directions, each by exactly one key. */
  lemma {:induction false} ArrowsAreUnits(d: Pos)
    ensures IsUnit(d) <==> exists k :: IsArrow(k) && ArrowDirection(k) == d
    ensures forall k1, k2 :: IsArrow(k1) && IsArrow(k2) && ArrowDirection(k1) == ArrowDirection(k2) ==> k1 == k2
  {
    if IsUnit(d) {
      var k := if d == Up then ArrowUp else if d == Down then ArrowDown
               else if d == Left then ArrowLeft else ArrowRight;
      assert IsArrow(k) && ArrowDirection(k) == d;
    }
  }

  predicate IsArrowEvent(e: Event) {
    e.KeyDown? && IsArrow(e.key)
  }

  /** An event that ends the scan of the newer game: every key it knows and
      the close request. */
  predicate IsDecisive(e: Event) {
    e.QuitEvent? || (e.KeyDown? && e.key != OtherKey)
  }

  /** An event that ends the scan of the older game: the close request,
      SPACE, X and ESC. */
  predicate IsStop(e: Event) {
    e.QuitEvent? || (e.KeyDown? && (e.key == Space || e.key == LetterX || e.key == Escape))
  }

  /** How a decisive event settles the frame when `direction` is the current
      direction: SPACE pauses and keeps it, an arrow replaces it, the close
      request, X and ESC exit. */
  function Decide(direction: Pos, e: Event, pauseEnd: PauseEnd): (c: Control)
    requires IsDecisive(e)
    ensures c.Steer? ==> c.direction == direction || IsUnit(c.direction)
    ensures IsArrowEvent(e) ==> c == Steer(ArrowDirection(e.key))
    ensures e == KeyDown(Space) ==> c == (if pauseEnd == Resumed then Steer(direction) else Exit)
    ensures IsStop(e) && e != KeyDown(Space) ==> c == Exit
  {
    match e
    case QuitEvent => Exit
    case KeyDown(k) =>
      if k == Space then (if pauseEnd == Resumed then Steer(direction) else Exit)
      else if IsArrow(k) then Steer(ArrowDirection(k))
      else Exit
  }

  /** Rule of the newer game: the events are scanned in order and the first
      decisive one settles the frame; later events are discarded. */
  function FirstArrow(direction: Pos, events: seq<Event>, pauseEnd: PauseEnd): (c: Control)
    ensures c.Steer? ==> c.direction == direction || IsUnit(c.direction)
  {
    if events == [] then Steer(direction)
    else if IsDecisive(events[0]) then Decide(direction, events[0], pauseEnd)
    else FirstArrow(direction, events[1..], pauseEnd)
  }

  /** Rule of the older game: every event is scanned, each arrow overwrites
      the direction, so the last one before any stop wins; SPACE pauses and
      ends the scan; the close request, X and ESC exit. */
  function LastArrow(direction: Pos, events: seq<Event>, pauseEnd: PauseEnd): (c: Control)
    ensures c.Steer? ==> c.direction == direction || IsUnit(c.direction)
    decreases |events|
  {
    if events == [] then Steer(direction)
    else if IsStop(events[0]) then Decide(direction, events[0], pauseEnd)
    else if IsArrowEvent(events[0]) then LastArrow(ArrowDirection(events[0].key), events[1..], pauseEnd)
    else LastArrow(direction, events[1..], pauseEnd)
  }

  /** The newer rule is decided by the first decisive event, and without
      one the direction is left as it was. */
  lemma {:induction false} FirstDecisiveSettles(direction: Pos, events: seq<Event>, pauseEnd: PauseEnd, i: int)
    requires 0 <= i < |events| && IsDecisive(events[i])
    requires forall j :: 0 <= j < i ==> !IsDecisive(events[j])
    ensures FirstArrow(direction, events, pauseEnd) == Decide(direction, events[i], pauseEnd)
  {
    if i > 0 {
      FirstDecisiveSettles(direction, events[1..], pauseEnd, i - 1);
    }
  }

  lemma {:induction false} NoDecisiveKeepsDirection(direction: Pos, events: seq<Event>, pauseEnd: PauseEnd)
    requires forall j :: 0 <= j < |events| ==> !IsDecisive(events[j])
    ensures FirstArrow(direction, events, pauseEnd) == Steer(direction)
  {
    if events != [] {
      NoDecisiveKeepsDirection(direction, events[1..], pauseEnd);
    }
  }

  /** In a batch without stops the older rule takes the last arrow ... */
  lemma {:induction false} LastArrowWins(direction: Pos, events: seq<Event>, pauseEnd: PauseEnd, i: int)
    requires forall j :: 0 <= j < |events| ==> !IsStop(events[j])
    requires 0 <= i < |events| && IsArrowEvent(events[i])
    requires forall j :: i < j < |events| ==> !IsArrowEvent(events[j])
    ensures LastArrow(direction, events, pauseEnd) == Steer(ArrowDirection(events[i].key))
    decreases i
  {
    if i == 0 {
      NoArrowKeepsDirection(ArrowDirection(events[0].key), events[1..], pauseEnd);
    } else {
      var d := if IsArrowEvent(events[0]) then ArrowDirection(events[0].key) else direction;
      LastArrowWins(d, events[1..], pauseEnd, i - 1);
    }
  }

  /** ... and without arrows it keeps the direction. */
  lemma {:induction false} NoArrowKeepsDirection(direction: Pos, events: seq<Event>, pauseEnd: PauseEnd)
    requires forall j :: 0 <= j < |events| ==> !IsStop(events[j]) && !IsArrowEvent(events[j])
    ensures LastArrow(direction, events, pauseEnd) == Steer(direction)
  {
    if events != [] {
      NoArrowKeepsDirection(direction, events[1..], pauseEnd);
    }
  }

  /** In the older rule nothing after SPACE is looked at. */
  lemma {:induction false} SpaceEndsScan(direction: Pos, before: seq<Event>, after: seq<Event>, pauseEnd: PauseEnd)
    ensures LastArrow(direction, before + [KeyDown(Space)] + after, pauseEnd)
         == LastArrow(direction, before + [KeyDown(Space)], pauseEnd)
    decreases |before|
  {
    if before == [] {
      assert (before + [KeyDown(Space)] + after)[0] == KeyDown(Space);
      assert (before + [KeyDown(Space)])[0] == KeyDown(Space);
    } else {
      var e := before[0];
      assert (before + [KeyDown(Space)] + after)[0] == e;
      assert (before + [KeyDown(Space)] + after)[1..] == before[1..] + [KeyDown(Space)] + after;
      assert (before + [KeyDown(Space)])[0] == e;
      assert (before + [KeyDown(Space)])[1..] == before[1..] + [KeyDown(Space)];
      var d := if IsArrowEvent(e) then ArrowDirection(e.key) else direction;
      SpaceEndsScan(d, before[1..], after, pauseEnd);
    }
  }

  /** SPACE after a run of arrows and ignored events: a resumed pause keeps
      the direction of the last arrow before it, quitting in the pause
      exits ... */
  lemma {:induction false} SpaceAfterArrows(direction: Pos, before: seq<Event>, pauseEnd: PauseEnd, i: int)
    requires forall j :: 0 <= j < |before| ==> !IsStop(before[j])
    requires 0 <= i < |before| && IsArrowEvent(before[i])
    requires forall j :: i < j < |before| ==> !IsArrowEvent(before[j])
    ensures LastArrow(direction, before + [KeyDown(Space)], pauseEnd)
         == (if pauseEnd == Resumed then Steer(ArrowDirection(before[i].key)) else Exit)
    decreases i
  {
    var all := before + [KeyDown(Space)];
    assert all[0] == before[0] && all[1..] == before[1..] + [KeyDown(Space)];
    if i == 0 {
      SpaceWithoutArrows(ArrowDirection(before[0].key), before[1..], pauseEnd);
    } else {
      var d := if IsArrowEvent(before[0]) then ArrowDirection(before[0].key) else direction;
      SpaceAfterArrows(d, before[1..], pauseEnd, i - 1);
    }
  }

  /** ... and with no arrow before it, the direction the frame started with. */
  lemma {:induction false} SpaceWithoutArrows(direction: Pos, before: seq<Event>, pauseEnd: PauseEnd)
    requires forall j :: 0 <= j < |before| ==> !IsStop(before[j]) && !IsArrowEvent(before[j])
    ensures LastArrow(direction, before + [KeyDown(Space)], pauseEnd)
         == (if pauseEnd == Resumed then Steer(direction) else Exit)
    decreases |before|
  {
    var all := before + [KeyDown(Space)];
    assert all[0] == (if before == [] then KeyDown(Space) else before[0]);
    if before != [] {
      assert all[1..] == before[1..] + [KeyDown(Space)];
      SpaceWithoutArrows(direction, before[1..], pauseEnd);
    }
  }

  /** In the older rule the close request, X or ESC end the program wherever
      they stand in the batch, as long as no SPACE comes first. */
  lemma {:induction false} QuitBeforeSpaceExits(direction: Pos, events: seq<Event>, pauseEnd: PauseEnd, i: int)
    requires 0 <= i < |events| && IsStop(events[i]) && events[i] != KeyDown(Space)
    requires forall j :: 0 <= j < i ==> !IsStop(events[j])
    ensures LastArrow(direction, events, pauseEnd) == Exit
    decreases i
  {
    if i > 0 {
      var d := if IsArrowEvent(events[0]) then ArrowDirection(events[0].key) else direction;
      QuitBeforeSpaceExits(d, events[1..], pauseEnd, i - 1);
    }
  }

  /** The two rules agree whenever at most one event of the batch matters. */
  lemma {:induction false} RulesAgreeOnOneKey(direction: Pos, events: seq<Event>, pauseEnd: PauseEnd, i: int)
    requires 0 <= i < |events|
    requires forall j :: 0 <= j < |events| && j != i ==> events[j] == OtherEvent
    ensures FirstArrow(direction, events, pauseEnd) == LastArrow(direction, events, pauseEnd)
  {
    if i == 0 {
      NoDecisiveKeepsDirection(direction, events[1..], pauseEnd);
      if IsArrowEvent(events[0]) {
        NoArrowKeepsDirection(ArrowDirection(events[0].key), events[1..], pauseEnd);
      } else {
        NoArrowKeepsDirection(direction, events[1..], pauseEnd);
      }
    } else {
      RulesAgreeOnOneKey(direction, events[1..], pauseEnd, i - 1);
    }
  }

  /** Two arrows in one frame: the newer game takes the first, the older the
      last. */
  lemma RulesDisagreeOnTwoArrows()
    ensures FirstArrow(Right, [KeyDown(ArrowUp), KeyDown(ArrowLeft)], Resumed) == Steer(Up)
    ensures LastArrow(Right, [KeyDown(ArrowUp), KeyDown(ArrowLeft)], Resumed) == Steer(Left)
  {
    var events := [KeyDown(ArrowUp), KeyDown(ArrowLeft)];
    assert events[1..] == [KeyDown(ArrowLeft)];
    assert events[1..][1..] == [];
  }
}
