# Snake: the round logic, verified

This project models the round logic of a grid Snake game with pygame removed, in both versions the repository carries:

- the newer `snake_game` package;
- the older single-file `Snake_game/main.py`.

The state of a round has four parts:

- the snake, a list of grid cells with the head first;
- the direction of movement;
- the cell holding the food;
- the score.

Every frame does three things:

1. It reads the pending input events.
2. It turns the snake.
3. It moves the head one cell.

The round ends when the new head leaves the board or lands on any current segment. Otherwise the new head is put in front of the body. On food, the score rises by one and new food is placed; without food, the tail is dropped.

The two versions differ only in how a frame's events become a direction:

- **Newer game** (`handle_input`): returns at the first key it knows (an arrow, SPACE, X or ESC), or at the close request. `FirstArrow` is named for its most common case, but any of these events settles the frame.
- **Older game**: scans every event, so the last arrow wins. SPACE stops the scan.

Around the rounds sits the high-score file:

- loading it parses the stripped text as an integer, giving 0 for a missing file or text that is not an integer;
- a finished round keeps the maximum;
- the game congratulates, and rewrites the file, only when the old value is strictly beaten.

## Modules

| File | Module | Contents |
|---|---|---|
| `grid.dfy` | `Grid` | Cells, the board, the four unit directions and chain/distinctness predicates. |
| `food.dfy` | `FoodPlacement` | Random placement, and the `Food` class whose position is fixed at construction. |
| `input.dfy` | `Input` | Events, keys, and the two input rules as functions: `FirstArrow` for the newer game, `LastArrow` for the older one. |
| `snake.dfy` | `Snake` | `RoundState`, the one-frame rule `Tick`, and `Invariant`. Also the `SnakeRound` class, whose `Step` method updates the body list, score and food in place. |
| `round.dfy` | `Round` | `Run`, the whole round as a function of the inputs of its frames. |
| `game.dfy` | `Game` | The newer game's `handle_input` loop and `play` loop as methods, each proved equal to its function. |
| `legacy_game.dfy` | `LegacyGame` | The same for the older game. |
| `highscore.dfy` | `Highscore` | Python's `str.strip`, `int` and `str` on the high-score text; the update after a round; the outer loop over rounds. |

### How the outside world enters the model

| Source element | Modelled as |
|---|---|
| Randomness | A `Draw` of two raw naturals. `randrange(0, n)` is the raw value reduced modulo `n`, which can give every cell. |
| The pause screen | For each frame, the way it ends: `Resumed` or `QuitInPause`. |
| The start screen | The requirement that the start direction is a unit vector. |
| `sys.exit` | `Exit` or the round end `Quit`. |
| The high-score file | `Option<string>`: `None` means there is no file. |
| The endless frame loop | A finite sequence of frame inputs. A round still running when they end stops with `FramesExhausted`. |

### Behaviour worth knowing

- **Reversing.** Neither version has a reversal guard. Turning straight back always steps onto the second segment and ends the round (`ReversalEndsRound`).
- **Negative high scores.** `int(text.strip())` accepts a leading `-`, so a file holding `-5` loads as −5 and is kept until a round beats it.
- **Board size.** The collision check uses the module constants `GRID_COLS`/`GRID_ROWS`, while the food uses `board.cols`/`board.rows`. `main` builds the board from the same constants, so the model uses one `Board` for both.
- **The up-then-down unit test.** It moves the list by hand and skips the collision check. In the game the second move is a reversal that ends the round (`UpThenDownEndsRound`).

## Model

| member | source | states |
|---|---|---|
| Grid.Board.Center | snake_game/main.py:96 | The start cell `(cols // 2, rows // 2)` lies on the board, in its upper-left half. |
| Grid.UnitStep | snake_game/main.py:97 | A unit step lands on a different cell next to the start, and stepping back returns to the start. |
| FoodPlacement.RandomPosition | snake_game/food.py:19-23 | The placed cell is on the board: `0 <= x < cols`, `0 <= y < rows`. |
| FoodPlacement.EveryCellReachable | snake_game/food.py:21-22 | Every cell of the board is a possible placement, so the position is constrained to the board and nothing else; the snake is not consulted. |
| FoodPlacement.Food.constructor | snake_game/food.py:9-17 | The object keeps the board and a position set once from the draw. The position is on the board and is `const`, so it never changes. |
| Input.ArrowDirection | snake_game/main.py:68-75 | Each arrow key selects a unit direction; Up is `(0, -1)` and Down is `(0, 1)`. |
| Input.ArrowsAreUnits | snake_game/ui_screens.py:76-84 | A direction is a unit vector exactly when some arrow key selects it, and distinct arrow keys select distinct directions, so the start screen can return only the four unit vectors. |
| Input.Decide | snake_game/main.py:59-78 | An arrow gives its direction. SPACE keeps the direction if the pause is resumed and exits if the program is closed in the pause. The close request, X and ESC exit. |
| Input.FirstArrow | snake_game/main.py:58-79 | The newer rule always yields the old direction, a unit vector or an exit. |
| Input.FirstDecisiveSettles | snake_game/main.py:58-78 | The first known key or close request settles the frame, whatever follows it. |
| Input.NoDecisiveKeepsDirection | snake_game/main.py:79 | With no close request and no known key (only unknown keys or ignored events), the direction is unchanged. |
| Input.LastArrow | Snake_game/main.py:213-235 | The older rule always yields the old direction, a unit vector or an exit. |
| Input.LastArrowWins | Snake_game/main.py:225-232 | In a batch without the close request, SPACE, X or ESC, the last arrow sets the direction. |
| Input.NoArrowKeepsDirection | Snake_game/main.py:213-235 | With no arrows and without the close request, SPACE, X or ESC, the direction is unchanged. |
| Input.SpaceEndsScan | Snake_game/main.py:219-222 | Events after SPACE are never looked at: the result is that of the events up to and including SPACE. |
| Input.SpaceAfterArrows | Snake_game/main.py:219-232 | When SPACE follows arrows and ignored events, a resumed pause keeps the direction of the last arrow before SPACE, and quitting in the pause exits. |
| Input.SpaceWithoutArrows | Snake_game/main.py:219-222 | When SPACE follows only ignored events, a resumed pause keeps the frame's starting direction, and quitting in the pause exits. |
| Input.QuitBeforeSpaceExits | Snake_game/main.py:214-216 | The close request, X or ESC exit the program wherever they stand, provided no SPACE comes first. |
| Input.RulesAgreeOnOneKey | Snake_game/main.py:213-235 | When at most one event of a frame is a key or a close request, both rules give the same result. |
| Input.RulesDisagreeOnTwoArrows | Snake_game/main.py:225-230 | Up then Left in one frame: the newer game turns up, the older game turns left. |
| Snake.Start | snake_game/main.py:95-99 | A new round has two cells and score 0, moves in the start direction and has the given food. The head is at the centre, and the second cell is one step behind it, against the start direction. |
| Snake.StartKeepsInvariant | snake_game/main.py:95-99 | A new round satisfies the round invariant: <br>• length is 2 + score; <br>• cells are pairwise distinct and chained by unit steps; <br>• the food and every cell but possibly the last are on the board. |
| Snake.StartInBounds | snake_game/main.py:96-97 | On a board at least 3 by 3, like the configured 30 by 30, both starting cells are on the board. |
| Snake.Tick | snake_game/main.py:104-121 | The round ends exactly when the new head is off the board or equals any current segment, and then the state is unchanged. Otherwise the direction is kept and the new head is at index 0. The old cells shift back by one, and the snake eats exactly when the new head is the food. Eating adds one cell and one point and food from the draw. Not eating drops the last cell and keeps length, score and food. |
| Snake.TickKeepsInvariant | snake_game/main.py:104-121 | Every frame keeps the invariant and never lowers the score. After a completed frame the old head is the second cell, one step of the direction behind the new head. |
| Snake.TurnKeepsInvariant | snake_game/main.py:102 | Setting any unit direction keeps the invariant. |
| Snake.TickKeepsAllInBounds | snake_game/main.py:109-121 | Once every cell, the last included, is on the board, every cell stays on the board. |
| Snake.ReversalEndsRound | Snake_game/main.py:238-246 | Moving towards the second cell ends the round: there is no reversal guard. |
| Snake.TailCellCollides | snake_game/main.py:111-121 | Moving onto the tail cell ends the round even though the tail would move away, because the body check runs before the pop. |
| Snake.CollisionExamples | tests/unit_test.py:75-88 | `(29, 0)` moving right hits the wall. `[(5, 5), (5, 6), (5, 7)]` moving down hits its second cell. |
| Snake.Steps | snake_game/main.py:101-121 | Frames without input keep a nonempty body and never lower the score. |
| Snake.StraightRun | tests/unit_test.py:25-50 | A two-cell snake goes straight for `k` frames through open, food-free cells. It ends with its head `k` cells ahead, the old position just behind, and two cells and the score unchanged. From `(0, 0)` moving right, that is `(20, 0)` after 20 frames. |
| Snake.UpThenDownEndsRound | tests/unit_test.py:52-69 | From `[(5, 5), (5, 6)]`, up moves the snake to `[(5, 4), (5, 5)]`; the following down ends the round. |
| Snake.SnakeRound.constructor | snake_game/main.py:95-99 | The object starts in state `Start` with freshly placed food and satisfies `Valid`. |
| Snake.SnakeRound.Step | snake_game/main.py:104-121 | The in-place update gives exactly the outcome and new state of `Tick` and keeps `Valid`. It creates a new `Food` object exactly when the snake eats. |
| Round.Poll | snake_game/main.py:102 | Either rule yields the old direction, a unit vector or an exit. |
| Round.Eaten | Snake_game/main.py:251-252 | There are no more eating frames than frames. |
| Round.Run | snake_game/main.py:101-137 | A round never records more frames than it is given. It records all of them when they run out, and the body and score never shrink. |
| Round.Continued | snake_game/main.py:101 | Putting completed frames in front keeps the end and final state and adds their number to the trace. |
| Round.RunFirstFrame | snake_game/main.py:101-121 | The first frame of a round either exits, ends in a collision in the turned state, or completes and hands over to the rest of the round. |
| Round.RunNextFrame | snake_game/main.py:101-121 | The same step for a loop that has already completed the frames of a trace. |
| Round.RunKeepsInvariant | snake_game/main.py:101-121 | The invariant holds when a round stops, however it stops. |
| Round.RunKeepsAllInBounds | snake_game/main.py:109-121 | A round that starts with every segment on the board ends with every segment on the board, however it ends. |
| Round.RoundStaysInBounds | snake_game/main.py:95-121 | On a board at least 3 by 3, like the configured 30 by 30, every segment of a fresh round stays on the board to its end. |
| Round.RunCountsEaten | Snake_game/main.py:251-252 | The final score is the starting score plus the number of eating frames, and the body grew by the same amount. |
| Round.RoundScoreIsEaten | Snake_game/main.py:206-270 | The score `play` returns is the number of eating frames. The final body is two cells longer than that, and the invariant holds. |
| Round.RunExtends | snake_game/main.py:101 | More input never changes a round that already stopped. A round that ran out of frames goes on from its final state. |
| Game.HandleInput | snake_game/main.py:45-79 | The loop with early returns computes exactly `FirstArrow`. |
| Game.PlayFrame | snake_game/main.py:102-121 | One frame of the newer loop reads the input with `FirstArrow`, turns, and advances the object exactly as `Tick`. On an exit it leaves the state untouched. |
| Game.Play | snake_game/main.py:82-137 | The newer `play` loop returns exactly `Run` from the start state with the first-arrow rule. Its final state satisfies the invariant, its score is the number of eating frames, and on a board at least 3 by 3 every segment ends on the board. |
| LegacyGame.PollEvents | Snake_game/main.py:213-235 | The overwriting scan with `break` on SPACE computes exactly `LastArrow`. |
| LegacyGame.PlayFrame | Snake_game/main.py:213-255 | One frame of the older loop reads the input with `LastArrow`, turns, and advances the object exactly as `Tick`. |
| LegacyGame.Play | Snake_game/main.py:187-270 | The older `play` loop returns exactly `Run` with the last-arrow rule. Its final state satisfies the invariant, its score is the number of eating frames, and on a board at least 3 by 3 every segment ends on the board. |
| Highscore.TrimStart | snake_game/main.py:29 | Only leading whitespace is removed, and the result starts with non-whitespace or is empty. |
| Highscore.TrimEnd | snake_game/main.py:29 | Only trailing whitespace is removed, and the result ends with non-whitespace or is empty. |
| Highscore.Strip | snake_game/main.py:29 | The stripped text is no longer, and both of its ends are non-whitespace. |
| Highscore.ParseInt | snake_game/main.py:28-31 | A value is returned exactly for an optional sign followed by one or more ASCII digits, of any length (CPython also stops at 4300 digits; see "Left out"). A leading `-` gives a value at most 0; otherwise the value is at least 0. |
| Highscore.Load | snake_game/main.py:16-31 | A missing file, or text whose stripped form is not an integer, loads as 0. |
| Highscore.ShowNat | snake_game/main.py:42 | The decimal form of a natural is a nonempty digit string without leading zeros. |
| Highscore.Show | snake_game/main.py:42 | `str(n)` is an integer literal without `+` that starts with `-` exactly when `n < 0`. |
| Highscore.DigitsOfShowNat | snake_game/main.py:42 | The digits written for `n` read back as `n`. |
| Highscore.ParseShow | snake_game/main.py:29 | `int(str(n)) == n` for every integer (CPython's `str` and `int` stop at 4300 decimal digits, far above any reachable score). |
| Highscore.TrimStartOf | Snake_game/main.py:22 | Whitespace in front of text that starts with non-whitespace is removed exactly. |
| Highscore.TrimEndOf | Snake_game/main.py:22 | Whitespace after text that ends with non-whitespace is removed exactly. |
| Highscore.StripSurrounded | Snake_game/main.py:22 | Text with non-whitespace ends strips to itself, whatever whitespace surrounds it. |
| Highscore.LoadAfterSave | Snake_game/main.py:16-30 | A saved score loads back unchanged, also with whitespace added around it. |
| Highscore.SaveThenLoad | tests/unit_test.py:112-121 | Saving `n` then loading gives `n`, 42 included. |
| Highscore.AfterRound | snake_game/main.py:161-165 | The kept value is the larger of the old high score and the score. A new high is flagged exactly on strict improvement, and the file is written exactly then, with the new value's decimal form. |
| Highscore.Session | Snake_game/main.py:279-291 | Over any sequence of rounds the kept value is the maximum of the loaded value and all scores. The file always loads back to it, and it is left untouched unless some round beats the loaded value. |

## Left out

**Not modelled:**

- Rendering (`Board.draw`, `Food.draw`, the drawing block of `play`, fonts, colours, text offsets): these are foreign library calls with no logic.
- The start, pause and game-over screens as wait loops. What they decide enters as parameters: the start direction as a unit vector, and the pause as a `PauseEnd`. The restart choice of the game-over screen enters `Session` as the sequence of rounds played.
- `clock.tick(FPS)` and real-time pacing: timing, not logic.
- `pygame.quit()` and `sys.exit()`: these become the `Exit` control and the `Quit` round end.
- Reading and writing the file. `load_highscore` is a function of the file's text, and `save_highscore` is the text `str(n)`. The model starts from the decoded text. A file that does not decode raises `UnicodeDecodeError`, which is a `ValueError`, so the game loads it as 0; `Load` has no input for that case. Errors that are not a `ValueError`, such as a permission error, are left out.
- The distribution of `random.randrange` and the probabilistic test `tests/unit_test.py:102-106`. The model only says which cells can be drawn.
- The unbounded `while True` loop. Rounds are run over a finite sequence of frames; a round still going when it ends stops with `FramesExhausted`.

**Stated weaker than Python on purpose:**

- Highscore.ParseInt: Python's `int` also accepts digit-group underscores and non-ASCII Unicode digits. These are not modelled, so such text loads as 0 here. CPython also rejects decimal text of more than 4300 digits with `ValueError`, so such a file loads as 0 there; the model parses any length.
- Highscore.IsWhitespace lists the code points of Python's `str.isspace`, but no other Unicode handling (normalisation, case) is modelled.

**Not covered as separate members:**

- `Snake_game/unit_test.py`: it asserts a head position without moving the snake, so it says nothing about the game.
- The stale `from board import Board, Food` import in `Snake_game/main.py:6`.
- The test of 20 steps to the right gets no concrete instance of its own. `Snake.StraightRun` states it for every `k`, with `k = 20` included.
