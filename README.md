# Valentine's quest — verified model of the game rules

The app is a small React site with five mini-games behind a home page that
tracks which games are finished. This project models the rules those
components implement, and proves what the rules promise:

- **Sliding puzzle** (`slider.dfy`, using `fisher_yates.dfy`):
  - the solved board `[1, …, n²−1, 0]`;
  - the inversion count of the tiles with the blank ignored;
  - the permutation-parity solvability test;
  - Manhattan adjacency of a tile to the blank;
  - the in-place Fisher–Yates shuffle inside the "retry until solvable and unsolved" generator;
  - the `board` / `moves` state of the component.

  The central result is that every legal click keeps the board a permutation
  with exactly one blank and keeps it solvable, for any board width.
- **Catch the hearts** (`reaction.dfy`): the `(state, action) → state`
  reducer with RESET, SET_BASKET, TOGGLE_RUNNING, SPAWN_HEART and TICK.
  - The TICK loop is a method proved equal to a per-heart classification.
  - Hearts are conserved: survivors + caught + dropped = hearts before the tick.
  - The survivors are the kept hearts, in order, only moved down.
  - The counters and the won/lost thresholds follow from the tick, and the
    derived status follows from the flags.
  - Every action preserves an invariant of reachable states.
- **Fog maze** (`maze.dfy`):
  - the row-major `findCell` search and the wall test;
  - the Chebyshev fog radius;
  - the reducer with RESET and MOVE: bounds, walls, goal, sticky `won`, growing visited set;
  - an invariant that holds for every sequence of key presses.
- **Quiz** (`quiz.dfy`):
  - the Fisher–Yates `shuffle` of a copy;
  - `restart` / `choose` / `next` over the component's state cells;
  - the completion gate, which fires only on a perfect score.
- **Home page progress** (`home.dfy`):
  - the games table and the default progress map;
  - `markDone`, `allDone` and the completed count;
  - the active-game lookup.

Coordinates, speeds and time steps are `real`s. Every call to `Math.random()`
is an explicit input: a draw in [0, 1) for the hearts, or the Fisher–Yates
index `j` in [0, i] for shuffles. State cells that the components update
in place (`board`/`moves`, the quiz cells, `completed`/`activeKey`) are class
fields changed by methods. The two reducers are pure functions over
datatypes, as in the source.

## Model

| member | source | states |
|---|---|---|
| `FisherYates.Swap` | src/games/Slider.jsx:67 | the two cells trade values, every other cell is unchanged, and the multiset of values is preserved |
| `FisherYates.Shuffled` | src/games/Slider.jsx:64-68 | the result of the backward Fisher–Yates pass has the input's length and multiset |
| `FisherYates.ShuffleInPlace` | src/games/Slider.jsx:65-68 | the in-place loop leaves the array equal to the Fisher–Yates pass over its old contents, hence a permutation of them |
| `Slider.Row` | src/games/Slider.jsx:21-23 | floor division: row·size ≤ index < row·size + size, for every index including −1 |
| `Slider.Col` | src/games/Slider.jsx:25-27 | for a non-negative index the column is in [0, size) and index = row·size + column |
| `Slider.IndexOf` | src/games/Slider.jsx:17-19 | -1 exactly when the value is absent, otherwise the first position holding it |
| `Slider.IsSolved` | src/games/Slider.jsx:45-51 | true exactly when the board is `[1, …, n−1, 0]` for its own length n ≥ 1 |
| `Slider.MakeSolvedBoard` | src/games/Slider.jsx:53-59 | returns `[1, …, size²−1, 0]`, which `isSolved` accepts |
| `Slider.CountInversions` | src/games/Slider.jsx:6-15 | the nested loop counts exactly the pairs i < j of non-blank tiles with nums[i] > nums[j] |
| `Slider.InversionsZeroIffSorted` | src/games/Slider.jsx:6-15 | the inversion count is zero exactly when the tiles are in non-decreasing order |
| `Slider.SolvedBoardSolvable` | src/games/Slider.jsx:29-43 | the solved board is a permutation with one blank, is solved, has no inversions and passes the parity test |
| `Slider.MoveGeometry` | src/games/Slider.jsx:73-81 | `CanMove` (Manhattan distance 1 between the cells' `Row`/`Col` coordinates) holds exactly for a horizontal neighbour in the same row or a vertical neighbour one row away |
| `Slider.CanMoveIrreflexive` | src/games/Slider.jsx:73-81 | a cell is never adjacent to itself |
| `Slider.CanMoveSymmetric` | src/games/Slider.jsx:73-81 | adjacency does not depend on which cell holds the blank |
| `Slider.Click` | src/games/Slider.jsx:97-109 | the board after a click has the same multiset of tiles |
| `Slider.ClickRefused` | src/games/Slider.jsx:98-101 | a click on a solved board, or on a tile that is not next to the blank, leaves the board unchanged |
| `Slider.LegalClick` | src/games/Slider.jsx:103-108 | a legal click puts the blank at the clicked cell and the tile where the blank was, changes nothing else, and the result is still a board |
| `Slider.ClickUndo` | src/games/Slider.jsx:97-108 | unless the click solved the puzzle, clicking the former blank cell is legal and restores the board |
| `Slider.ParityRuleClosedForm` | src/games/Slider.jsx:35-42 | `ParityRule`, the source's three-way test, is the usual closed form: on odd widths the inversion count is even; on even widths inversions plus the blank's row from the bottom is odd |
| `Slider.IsSolvableClosedForm` | src/games/Slider.jsx:29-43 | `IsSolvable` applies that closed form to the board's non-blank inversion count and the blank's 1-based row from the bottom |
| `Slider.BlankDownKeepsSolvable` | src/games/Slider.jsx:29-43 | moving the blank one row down changes the inversion parity exactly as the blank's row parity changes, so solvability is unchanged |
| `Slider.ClickKeepsSolvable` | src/games/Slider.jsx:97-108 | every click keeps the board a permutation of the solved board and keeps it solvable |
| `Slider.ShuffledIsBoard` | src/games/Slider.jsx:64-68 | every Fisher–Yates shuffle of the solved board is a permutation of it with exactly one blank |
| `Slider.TryShuffle` | src/games/Slider.jsx:64-69 | one attempt returns the shuffle of a copy of the solved board and reports whether it is solvable and unsolved |
| `Slider.ShuffleSolvable` | src/games/Slider.jsx:61-71 | whenever it returns, the board is a permutation of the solved board with one blank, solvable and not solved |
| `Slider.Game.constructor` | src/games/Slider.jsx:86-87 | the first board is a solvable, unsolved permutation and no move has been made |
| `Slider.Game.Reset` | src/games/Slider.jsx:92-95 | a fresh solvable, unsolved board and the move counter back to zero |
| `Slider.Game.HandleTileClick` | src/games/Slider.jsx:97-109 | the board becomes the click's result, moves rises by one exactly on a legal click, and the board stays a solvable permutation |
| `Reaction.Rand` | src/games/Reaction.jsx:19-21 | a draw in [0, 1) maps into [min, max), or onto min when the range is empty |
| `Reaction.Scale` | src/games/Reaction.jsx:19-21 | a draw in [0, 1) times a non-negative width lies in [0, width), or is 0 for width 0 |
| `Reaction.Clamp` | src/games/Reaction.jsx:23-25 | the result lies in [min, max] when min ≤ max, equals n when n is already in range, and is always one of min, max, n |
| `Reaction.FateOf` | src/games/Reaction.jsx:80-101 | a heart that falls on is still on the field at its new height; a dropped heart is below the field |
| `Reaction.CaughtIsOnField` | src/games/Reaction.jsx:86-98 | a caught heart is never below the field, so testing the catch before the drop never hides a drop |
| `Reaction.Classify` | src/games/Reaction.jsx:75-101 | survivors + caught + dropped equals the number of hearts before the tick, and every survivor is on the field |
| `Reaction.TickHearts` | src/games/Reaction.jsx:75-101 | the loop with its two accumulators computes exactly the per-heart classification |
| `Reaction.Kept` | src/games/Reaction.jsx:95-100 | the hearts that fall on are drawn from the input |
| `Reaction.SurvivorsAreKeptHearts` | src/games/Reaction.jsx:78-101 | survivors are the kept hearts in their original order, with id, x and vy unchanged and y advanced by vy·dt |
| `Reaction.QuietTick` | src/games/Reaction.jsx:80-101 | when nothing is caught or dropped, every heart survives in place in the list and only moves down |
| `Reaction.NewHeart` | src/games/Reaction.jsx:57-62 | a spawned heart starts at y = −HEART_SIZE with x in [0, GAME_W−HEART_SIZE] and vy in [FALL_SPEED_MIN, FALL_SPEED_MAX] |
| `Reaction.ResetIsInitial` | src/games/Reaction.jsx:27-42 | RESET yields `Initial`: a basket centred at 165, no hearts, zero counters, running, neither won nor lost |
| `Reaction.SetBasketVerbatim` | src/games/Reaction.jsx:44-45 | SET_BASKET stores x unclamped and unguarded and changes nothing else |
| `Reaction.ToggleGuard` | src/games/Reaction.jsx:47-49 | TOGGLE_RUNNING is ignored once won or lost, and otherwise flips only `running` |
| `Reaction.InactiveIsFrozen` | src/games/Reaction.jsx:51-67 | SPAWN_HEART and TICK leave the state unchanged unless running and neither won nor lost |
| `Reaction.SpawnAppendsOne` | src/games/Reaction.jsx:51-64 | SPAWN_HEART appends exactly one in-range heart at the top and keeps the other hearts and all other fields |
| `Reaction.TickCounters` | src/games/Reaction.jsx:103-118 | the score and misses grow by exactly the numbers caught and dropped; won and lost are the two thresholds taken independently; running stops exactly when either is set |
| `Reaction.CountersMonotone` | src/games/Reaction.jsx:39-125 | no action but RESET lowers the score or the miss count |
| `Reaction.ReducePreservesInv` | src/games/Reaction.jsx:39-125 | every action of the reducer `Reduce` keeps won ⇔ score ≥ 10, lost ⇔ misses ≥ 7, a finished game stopped, and every heart in range and on the field |
| `Reaction.RunningStatusIffActive` | src/games/Reaction.jsx:134-139 | in a reachable state the status `StatusOf` is "running" exactly when hearts spawn and move, and "paused" exactly when stopped below both thresholds |
| `Reaction.TickCanSetBothFlags` | src/games/Reaction.jsx:103-139 | a tick catching one heart at 9 points and dropping one at 6 misses sets both flags, stops the game and reports "won" |
| `Reaction.ArrowKey` | src/games/Reaction.jsx:203-217 | arrow keys dispatch nothing once won or lost; otherwise SET_BASKET with the basket moved one step and clamped to [0, GAME_W−BASKET_W] |
| `Maze.CellAt` | src/games/Maze.jsx:65 | a cell past the end of its row reads as missing |
| `Maze.FindCell` | src/games/Maze.jsx:18-25 | returns the first scanned cell, in row-major order, holding the target, or nothing exactly when no scanned cell holds it |
| `Maze.FirstIsUnique` | src/games/Maze.jsx:18-25 | the first occurrence in row-major order is unique |
| `Maze.StartOfMazeMap` | src/games/Maze.jsx:5-13 | "S" first occurs at (0, 0) |
| `Maze.GoalOfMazeMap` | src/games/Maze.jsx:5-13 | "G" first occurs at (6, 7) and nowhere else |
| `Maze.InRadiusIsChebyshevBall` | src/games/Maze.jsx:35-37 | the radius test `InRadius` is Chebyshev distance ≤ radius, is symmetric, and holds of the player's own cell |
| `Maze.Initial` | src/games/Maze.jsx:39-47 | the player stands on the start with no moves, not won, having visited only the start |
| `Maze.MoveRefused` | src/games/Maze.jsx:58-66 | once won, off the grid, or into a wall (`IsWall`: the cell is the number 1), a MOVE of the reducer `Reduce` leaves the whole state unchanged |
| `Maze.MoveAccepted` | src/games/Maze.jsx:68-80 | an accepted MOVE steps to (r+dr, c+dc), adds one move, wins exactly on the goal, and adds exactly the new cell to a new visited set |
| `Maze.WonIsSticky` | src/games/Maze.jsx:49-87 | once won, every action but RESET leaves the state unchanged |
| `Maze.ResetEstablishesInv` | src/games/Maze.jsx:51-53 | RESET to an open start cell yields a state satisfying the invariant |
| `Maze.MovePreservesInv` | src/games/Maze.jsx:55-82 | every MOVE keeps the player on an open cell inside the grid, the player's cell visited, every visited cell open, visited no larger than moves + 1, and won only on the goal |
| `Maze.ExploredIsVisible` | src/games/Maze.jsx:200-202 | under the invariant the player's cell and every explored cell are drawn without fog |
| `Maze.Landmarks` | src/games/Maze.jsx:94-98 | start and goal are the first "S" and "G" cells, or the top-left and bottom-right corners when absent |
| `Maze.MazeLandmarks` | src/games/Maze.jsx:90-98 | on MAZE_MAP the start is (0, 0), the goal is (6, 7), and the start is open |
| `Maze.TryMoveOutcome` | src/games/Maze.jsx:108-121 | the MOVE that `tryMove` dispatches moves the player one step in the pressed direction, counting a move, winning exactly on the goal and exploring the cell, exactly when the game is not won and the target is open; otherwise nothing changes |
| `Maze.PlayPreservesInv` | src/games/Maze.jsx:108-121 | any sequence of key presses keeps the invariant |
| `Maze.PlayAfterWin` | src/games/Maze.jsx:58 | once won, no sequence of key presses changes the state |
| `Maze.MazeGamesKeepInv` | src/games/Maze.jsx:100-121 | every game on MAZE_MAP from its start stays in the invariant, whatever keys are pressed |
| `Quiz.Shuffle` | src/games/Quiz.jsx:18-25 | the result is the Fisher–Yates shuffle of a copy, a permutation of the argument, which is left as it was |
| `Quiz.CountTrue` | src/games/Quiz.jsx:65-88 | the number of correct answers is at most the number of questions, with equality exactly when all were correct |
| `Quiz.Game.ScoreBound` | src/games/Quiz.jsx:65-88 | score ≤ index + 1 ≤ total, and score ≤ index while no answer is selected |
| `Quiz.Game.PerfectMeansAllCorrect` | src/games/Quiz.jsx:45-53 | a finished quiz with score = total had every question answered correctly |
| `Quiz.Game.CompletesIffAllCorrect` | src/games/Quiz.jsx:45-53 | the completion gate `ShouldComplete` fires exactly when the quiz is done, not yet marked complete, and every question, the last one included, was answered correctly |
| `Quiz.Game.constructor` | src/games/Quiz.jsx:28-39 | the first question, no selection, no score, not done; questions in base order unless shuffling is on; no answers recorded yet |
| `Quiz.Game.Restart` | src/games/Quiz.jsx:55-63 | index 0, no selection, no verdict, score 0, not done, the question list rebuilt from the base, and the record of answers cleared |
| `Quiz.Game.Choose` | src/games/Quiz.jsx:65-74 | ignored when done or already answered; otherwise records the choice and its verdict and scores one point exactly when it is correct; the record of earlier answers is untouched |
| `Quiz.Game.Next` | src/games/Quiz.jsx:76-88 | ignored when done; on the last question sets done and keeps the index; otherwise moves on, clears the selection and verdict, and records whether the question just left was answered correctly; needs no selection |
| `Home.GamesHaveDistinctKeys` | src/pages/Home.jsx:14-20 | the five game keys are distinct |
| `Home.AllFalse` | src/pages/Home.jsx:28 | the built map has exactly the games' keys, all false |
| `Home.DefaultProgressShape` | src/pages/Home.jsx:14-28 | with nothing stored, progress has exactly the five game keys and none is done |
| `Home.Every` | src/pages/Home.jsx:35-38 | `allDone` holds exactly when every game's key maps to true |
| `Home.CountDone` | src/pages/Home.jsx:58 | the completed count is at most the number of games |
| `Home.CountDoneFullIffEvery` | src/pages/Home.jsx:35-58 | the completed count equals the number of games exactly when every game is done |
| `Home.CompletedCountBound` | src/pages/Home.jsx:35-58 | on GAMES the completed count is at most five, and five exactly when `allDone` |
| `Home.CountAfterMark` | src/pages/Home.jsx:40-58 | marking a listed game that was not done raises the count by one; otherwise the count is unchanged |
| `Home.FindIndex` | src/pages/Home.jsx:44 | the first entry with the key, or -1 exactly when none has it |
| `Home.ActiveGameLookup` | src/pages/Home.jsx:44 | through `Find` and `ActiveGame`, a game key selects that game's component; any other key falls back to Memory |
| `Home.MarkDoneIdempotent` | src/pages/Home.jsx:40-42 | marking a game twice equals marking it once |
| `Home.Page.constructor` | src/pages/Home.jsx:24-29 | the stored map if one exists, otherwise the default map; the first game's tab active |
| `Home.Page.MarkDone` | src/pages/Home.jsx:40-42 | sets the key to true, leaves every other entry and the active tab alone, and moves the completed count as `CountAfterMark` says |
| `Home.Page.SetActiveKey` | src/pages/Home.jsx:24 | changes the active tab only |

## Left out

- Rendering is not modelled: all JSX and styling, and the Tabs, TopSlots, Reveal and App components. They are presentation and routing.
- Memory.jsx is not part of this model. It is a placeholder with no game logic, and only its role as the fallback component appears.
- The localStorage read, JSON parsing and write in Home.jsx are not modelled. `Home.Page.constructor` takes the parsed map, if any, as a parameter.
- `requestAnimationFrame`, `setInterval` and the computation of `dt` from timestamps are not modelled. Of the keyboard and slider handlers, only the actions they dispatch are modelled, plus the arrow-key clamping of the catch game. The maze's key handler and the slider-to-pixels mapping are left out.
- The completion effects of the slider, maze and catch game are left out. Each calls `onComplete` once `won` holds and the game is not yet complete, and `won` itself is modelled. The quiz's gate is modelled as `Quiz.ShouldComplete`.
- `Math.random` is an explicit input. Nothing is claimed about its distribution.
- `Date.now` and the random suffix of a heart's id are not modelled: the id is an abstract number carried by SPAWN_HEART, and its freshness is not tracked.
- Floating point is not modelled. Positions and vy·dt are exact reals, so IEEE rounding is not captured.
- Slider.ShuffleSolvable: the source retries forever until a draw is acceptable. The model takes a finite list of draw sequences and requires one to be acceptable, so termination of the real loop is not modelled.
- Slider.Game.HandleTileClick: requires the clicked index to be a board position, as every click comes from a rendered tile. An out-of-range index is not modelled; the source would then write past the end of its copy.
- Slider.Game: the game is fixed at `SIZE` = 3 as in the component. The geometry, parity and preservation lemmas hold for every width.
- The `showNumbers` toggle of the slider is not modelled.
- Whether the parity rule characterises the reachable boards is not modelled. The model proves that the rule is invariant under moves, not its converse.
- Maze cell keys are `Pos` pairs rather than `"r,c"` strings. The string encoding is injective on integers, so set membership is the same.
- `PERSIST_EXPLORED` is the constant `true` in the source. Only that branch is modelled.
- Maze.Reduce: a MOVE requires `rows` to be at most the number of map rows. With more, the source would read a missing row and throw.
- Reaction.Reduce: a SPAWN_HEART's two draws must lie in [0, 1), as `Math.random` guarantees.
- Quiz.Game: the ghost field `answers`, the per-question record of correct answers, exists only to state the perfect-score property.
- React hook semantics are not modelled. Every `setState` or `dispatch` in one handler is one atomic transition, and re-render timing is ignored.

## Notes on the code

- SET_BASKET (src/games/Reaction.jsx:44-45) stores `action.x` unclamped and without a won/lost guard (`Reaction.SetBasketVerbatim`). Only the arrow-key handlers clamp it into [0, GAME_W − BASKET_W] (`Reaction.ArrowKey`); the on-screen slider maps 0..100 into that range.
- TICK (src/games/Reaction.jsx:103-118) sets `won` and `lost` independently, so one tick can set both (`Reaction.TickCanSetBothFlags`). The derived status checks `won` first and reports "won".
- `colFromIndex` (src/games/Slider.jsx:25-27) uses JavaScript's remainder, which takes the sign of the dividend, and `Slider.Col` models it for negative indices too. Within the modelled logic a negative index arises only when the board has no blank; the renderer also calls it with −1 for the blank tile, and rendering is left out.
