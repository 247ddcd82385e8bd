# Minesweeper playing field — a Dafny model

This project models the game engine of a React Minesweeper (slvptr/minesweeper).
The engine is the `PlayingField` component: a 16 x 16 field with 40 mines that
`generateField` draws, `handleCellLeftClick` and `handleCellRightClick`, the
effect that keeps the mine counter and detects a win, the smiley reset, and the
one-second timer. The model also covers:

- the helpers it uses: `countBombsAround`, `countMarkedBombs`, `getFlagsCoords`,
  `expandNearbyNumbers` and the breadth-first `expandArea`;
- the array utilities `coordsByIndex`, `copyMatrix` and `cartesian`;
- `randomNumbers`;
- the enumerations;
- the scoreboard's digit arithmetic.

The model has three layers.

- **Snapshots and rules** (`Rules`, `GameRules`). A board is a
  `seq<seq<Cell>>` of (value, mask) pairs. Pure functions say what each
  operation does to a board:
  - `Numbered` and `Generated` for generation;
  - `Region`, `NumberBorder` and `Expand` for the area reveal;
  - `LossReveal` for a lost game;
  - `CycleMask` for the right click;
  - `Marked`, `Correct` and `WinCheck` for the counter and the win test.

  `GameRules` uses them to state each handler as a function from the
  component's `State` to the next one. The game's properties are lemmas over
  these functions:
  - first-click safety;
  - flags survive regeneration;
  - the loss sweep;
  - the win condition;
  - idempotence of a left click;
  - the three-step mask cycle;
  - an invariant (`Consistent`) that every event preserves.
- **The grid in the heap** (`Types`, `Engine`). As in the source, a unit is an
  object (`GridUnit`) whose `cellValue` and `cellMask` are updated in place. A
  grid is a sequence of rows of unit references. `View(g)` reads the snapshot
  off the heap. Each imperative operation is a method with loops and
  invariants, proved against the snapshot function. For example,
  `ExpandArea` ensures `View(field) == Expand(old(View(field)), start)`, and
  `CountBombsAround` returns `BombsAround(View(field), coords)`.
- **The component** (`Game`). `PlayingField` is a class with the five React
  state variables as fields. Its handlers are proved to move its abstract
  state exactly as the `GameRules` functions say.

The component's state is the value `GameRules.State`: the five `useState`
variables of `playing-field.tsx:135-139` (`gameState`, `field` as a board,
`isFirstClick`, `bombCounter`, `time`). `Game.PlayingField.Abstract` reads
it off the class.

Randomness is an input. `RandomNumbers` takes the sequence of values
`Math.random()` returned. Generation and the game take the drawn index lists
("samples"), one per call of `generateField`.

Where the code and its written description differ, the model follows the code:

- The win effect (`playing-field.tsx:154-159`) sets `WON` in whatever state
  the game is in, not only from `STARTED`. `Rules.ExplodedNeverWins` and
  `GameRules.Consistent` show a lost game can never pass the win test, so
  this cannot turn a loss into a win.
- The breadth-first search of `expandArea` enters every EMPTY cell whose mask
  is not `NO`. That includes flagged and question-marked EMPTY cells, whose
  marks it clears (`playing-field.tsx:118-124`).
- A right click as the first action sets `STARTED` but leaves `isFirstClick`
  true. The next left click still regenerates the board if needed.
- `copyMatrix` copies the rows but shares the unit objects. A copy and its
  original therefore hold the same units (`Game.SameUnits`), and the
  handlers' writes reach the old field's units too.

## Model

| member | source | states |
|---|---|---|
| Types.SetMask | src/components/playing-field/playing-field.tsx:113 | a write `unit.cellMask = m` (also at lines 69, 104, 177, 199 and 217-221) changes that one unit's mask on the board and nothing else, since each unit sits at its own coordinates |
| Types.SetValue | src/components/playing-field/playing-field.tsx:95 | a write to `unit.cellValue` (also at lines 89 and 193) changes that one unit's value on the board and nothing else |
| Enums.CountValue | src/models/enums.ts:1-14 | `EMPTY + k` for 0 <= k <= 8 is the enum member meaning "k mines around": EMPTY exactly for 0, one of ONE..EIGHT otherwise, never a mine tag |
| Enums.MineTagsAreNotCounts | src/models/enums.ts:11-13 | BOMB, BOMB_EXPLODED and BOMB_MISTAKEN are neither EMPTY nor a count 1..8 |
| Enums.TerminalStatesIgnoreClicks | src/components/playing-field/playing-field.tsx:162-163 | the handlers' guard refuses a click exactly in GAME_OVER and WON |
| JsMath.JsRem | src/utils/array.ts:7-8 | JavaScript `%` for a positive divisor: the Euclidean remainder for a non-negative dividend; for a negative one, 0 on an exact multiple and otherwise the Euclidean remainder minus b, so it lies in (-b, 0] |
| ArrayUtils.CoordsByIndex | src/utils/array.ts:1-10 | `coordsByIndex`: x is `idx % w` and y is `Math.floor(idx / w) % h`, with JavaScript's truncating `%` (the lemmas below state what it means) |
| ArrayUtils.CoordsByIndexInBounds | src/utils/array.ts:1-10 | every non-negative index maps to a cell inside the w x h grid |
| ArrayUtils.CoordsByIndexRowMajor | src/utils/array.ts:1-10 | inside 0..w*h-1 the index is the row-major position `y * w + x` of its cell |
| ArrayUtils.CoordsByIndexInjective | src/utils/array.ts:1-10 | distinct indexes inside the grid name distinct cells |
| ArrayUtils.CoordsByIndexOnto | src/utils/array.ts:1-10 | every cell of the grid is named by its row-major index |
| ArrayUtils.CopyMatrix | src/utils/array.ts:12-16 | the copy has the same shape and holds the same elements, row by row |
| ArrayUtils.Pairs | src/utils/array.ts:19 | the inner `b.map(bi => [ai, bi])`: one pair per element of b, in order, each with ai first |
| ArrayUtils.Cartesian | src/utils/array.ts:18-19 | the product has `\|a\| * \|b\|` pairs |
| ArrayUtils.CartesianAt | src/utils/array.ts:18-19 | pair `i * \|b\| + j` of the product is `(a[i], b[j])`: the first component varies slowest |
| Random.Draw | src/utils/random.ts:4 | one draw: `Math.floor(random * (max - min + 1)) + min` for the given `Math.random()` result |
| Random.DrawInRange | src/utils/random.ts:4 | `floor(random * (max - min + 1)) + min` lies in min..max for a draw in [0, 1) |
| Random.Collected | src/utils/random.ts:2-6 | `Array.from` of the Set after the values are added in turn: the values without repeats, in order of first insertion |
| Random.CollectedIsSet | src/utils/random.ts:2-4 | the values collected in the set are distinct and are exactly the values drawn |
| Random.CollectedGrowsByAtMostOne | src/utils/random.ts:3-4 | one more draw grows the set by at most one |
| Random.DistinctInRangeSize | src/utils/random.ts:1-7 | there are at most `max - min + 1` distinct values in min..max, so the loop can only finish when `count` is at most that |
| Random.RandomNumbers | src/utils/random.ts:1-7 | draws until `count` distinct values are collected: the result is those values in first-drawn order, distinct, in min..max, exactly `count` of them; no earlier prefix of the draws had enough; None only when the draws ran out first |
| Scoreboard.Digit | src/components/scoreboard/scoreboard.tsx:9-12 | every icon shows a digit 0..9 |
| Scoreboard.Display | src/components/scoreboard/scoreboard.tsx:17-23 | the three icons of a counter, hundreds first |
| Scoreboard.DigitIsDecimal | src/components/scoreboard/scoreboard.tsx:10 | for a value in 0..999 the icon is the decimal digit at that position |
| Scoreboard.DisplayReadsClamped | src/components/scoreboard/scoreboard.tsx:9-23 | the three icons read the value clamped to 0..999 (negative shows 000, above 999 shows 999) |
| Rules.BombNeighbours | src/components/playing-field/playing-field.tsx:18-22 | a cell is counted exactly when it is on the board, one of the eight neighbours (not the centre) and holds BOMB |
| Rules.BombsAround | src/components/playing-field/playing-field.tsx:15-25 | the count is the number of mined neighbours, and at most eight |
| Rules.SameMinesSameCounts | src/components/playing-field/playing-field.tsx:92-97 | counts depend only on where the mines are, so numbering cells in place does not disturb later counts |
| Rules.Layout | src/components/playing-field/playing-field.tsx:75-90 | the w x h board after the mines are placed: every unit LOCKED, BOMB on the given cells, EMPTY elsewhere |
| Rules.Numbered | src/components/playing-field/playing-field.tsx:92-97 | every EMPTY cell takes `EMPTY +` its number of mined neighbours and keeps its mask; every other cell is unchanged |
| Rules.Generated | src/components/playing-field/playing-field.tsx:74-100 | the board `generateField` builds from the drawn indexes: the layout of their cells, then numbered |
| Rules.GeneratedBoard | src/components/playing-field/playing-field.tsx:74-100 | a board generated for w x h (16 x 16 in the game) has w-long rows, every unit LOCKED, mines exactly on the drawn cells, and every other cell holds the number of mines around it on that same board |
| Rules.BombSetSize | src/components/playing-field/playing-field.tsx:82-90 | distinct drawn indexes place as many distinct mines, all inside the grid |
| Rules.GeneratedMineCount | src/components/playing-field/playing-field.tsx:74-100 | a board generated from n distinct in-grid indexes (40 in the game) has exactly n mines, none gone off, and no marks |
| Rules.Reveal | src/components/playing-field/playing-field.tsx:102-132 | the cells of a set lose their mask and keep their value; all other cells are unchanged |
| Rules.Region | src/components/playing-field/playing-field.tsx:107-126 | the cells the search visits are those reachable from the start through hidden EMPTY cells |
| Rules.RegionHasStart | src/components/playing-field/playing-field.tsx:107 | the search visits its start |
| Rules.RegionClosed | src/components/playing-field/playing-field.tsx:114-125 | a hidden EMPTY neighbour of a visited cell is visited |
| Rules.RegionLeast | src/components/playing-field/playing-field.tsx:110-126 | the visited region is the least closed set holding the start: nothing beyond the EMPTY area is entered |
| Rules.NumberBorder | src/components/playing-field/playing-field.tsx:60-72 | the cells `expandNearbyNumbers` shows: numbered (1..8) neighbours of some visited cell |
| Rules.Revealed | src/components/playing-field/playing-field.tsx:102-132 | the cells `expandArea` shows: the clicked cell alone when it is not EMPTY (line 105), else the search region and its numbered border |
| Rules.Expand | src/components/playing-field/playing-field.tsx:102-132 | the board after `expandArea`: exactly the `Revealed` cells are shown |
| Rules.ExpandRevealsNoMine | src/components/playing-field/playing-field.tsx:102-132 | `expandArea` changes masks only: the clicked cell is shown, and every other cell it shows is EMPTY or numbered, never a mine |
| Rules.ExpandIdempotent | src/components/playing-field/playing-field.tsx:102-132 | expanding the same cell again shows nothing more |
| Rules.SweptCell | src/components/playing-field/playing-field.tsx:189-199 | one unit of the loss sweep: a flag on a non-mine becomes BOMB_MISTAKEN, then every unit but a flagged mine is shown, the second test reading the value the first may have changed |
| Rules.LossReveal | src/components/playing-field/playing-field.tsx:184-202 | after a loss, each unit is the clicked cell gone off, then swept |
| Rules.Swept | src/components/playing-field/playing-field.tsx:187-201 | the sweep applies the per-unit rule to every unit and keeps the board's shape |
| Rules.LossRevealSweeps | src/components/playing-field/playing-field.tsx:184-202 | the loss is BOMB_EXPLODED on the clicked cell followed by the sweep of every unit |
| Rules.LossRevealOutcome | src/components/playing-field/playing-field.tsx:184-202 | after a loss the clicked cell shows BOMB_EXPLODED, a flagged mine keeps its flag, a flag on a safe cell shows BOMB_MISTAKEN, and every other unit is shown with its value |
| Rules.Marked | src/components/playing-field/playing-field.tsx:34-38 | the cells `markedAtAll` counts: flagged, or showing BOMB_MISTAKEN |
| Rules.Correct | src/components/playing-field/playing-field.tsx:39-43 | the cells `markedCorrectly` counts: flagged mines |
| Rules.FlagCells | src/components/playing-field/playing-field.tsx:49-58 | the cells whose mask is FLAG |
| Rules.MineCells | src/components/playing-field/playing-field.tsx:184-186 | the cells holding a mine, gone off or not |
| Rules.WinCheck | src/components/playing-field/playing-field.tsx:157 | the win test `markedAtAll == markedCorrectly && markedCorrectly == BOMB_COUNT` on the board's marked and correctly flagged cells |
| Rules.WinMeansMinesMarked | src/components/playing-field/playing-field.tsx:154-159 | on a board with 40 mines the win test passes exactly when the marked cells are the mines, and then the flags are exactly the mines |
| Rules.CorrectWithinMarked | src/components/playing-field/playing-field.tsx:27-47 | `markedCorrectly` never exceeds `markedAtAll` nor the number of mines |
| Rules.LossKeepsMarks | src/components/playing-field/playing-field.tsx:187-201 | the loss sweep keeps the marked cells: a flag stays or turns BOMB_MISTAKEN |
| Rules.LossKeepsMines | src/components/playing-field/playing-field.tsx:184-202 | the loss keeps the mines in place, and the clicked mine has gone off |
| Rules.ExplodedNeverWins | src/components/playing-field/playing-field.tsx:154-159 | with 40 mines and one gone off, the win test cannot pass |
| Rules.CycleMask | src/components/playing-field/playing-field.tsx:216-221 | the right-click cycle: a shown unit stays shown, and the result is FLAG exactly when the unit was LOCKED |
| Rules.CycleMaskPeriod | src/components/playing-field/playing-field.tsx:216-221 | three right clicks restore a mask, and one or two change a hidden one |
| Rules.ApplyFlags | src/components/playing-field/playing-field.tsx:176-178 | the cells of the list get FLAG and keep their values; the others are untouched |
| Rules.ApplyFlagsOutcome | src/components/playing-field/playing-field.tsx:171-178 | putting a board's own flags back changes nothing, and afterwards the flags are the old ones plus those put on |
| GameRules.AfterFieldChange | src/components/playing-field/playing-field.tsx:154-159 | the counter is 40 minus `markedAtAll`; the state becomes WON exactly when it was WON or the win test passes, and is unchanged otherwise |
| GameRules.LeftClick | src/components/playing-field/playing-field.tsx:161-204 | a refused click changes nothing; an accepted one ends the first click and leaves the time alone |
| GameRules.RightClick | src/components/playing-field/playing-field.tsx:206-224 | a refused click changes nothing; an accepted one cycles the clicked mask, touches no other cell and leaves `isFirstClick` and the time alone |
| GameRules.Fresh | src/components/playing-field/playing-field.tsx:233-239 | a reset gives a 16 x 16 field, first click pending and time 0 |
| GameRules.Tick | src/components/playing-field/playing-field.tsx:142-152 | the time goes up by one exactly while the game is STARTED, and nothing else changes |
| GameRules.Regenerate | src/components/playing-field/playing-field.tsx:173-174 | the regeneration loop: while the clicked cell holds a mine, the next drawn board replaces the field; the result keeps the 16 x 16 shape |
| GameRules.FirstClickBoard | src/components/playing-field/playing-field.tsx:168-179 | the board the first left click plays on: regenerated, then the flags of the board before the click put back |
| GameRules.DrawBombIndexes | src/components/playing-field/playing-field.tsx:82-86 | `randomNumbers(0, 255, 40)` as `generateField` calls it: whatever it returns is a valid sample (40 distinct cell indexes) for the playing field, and it fails only when the draws run out |
| GameRules.RegenerateSafe | src/components/playing-field/playing-field.tsx:173-174 | regeneration ends on a safe clicked cell exactly when some board along the way (the current one or a drawn one) has it safe |
| GameRules.RegenerateKeepsMines | src/components/playing-field/playing-field.tsx:173-174 | regeneration keeps 40 mines, none gone off, and adds no flag |
| GameRules.FirstClickKeepsFlags | src/components/playing-field/playing-field.tsx:168-179 | the first left click's board carries exactly the flags placed before it |
| GameRules.FirstClickIsSafe | src/components/playing-field/playing-field.tsx:168-202 | when some draw leaves the cell safe, the first left click never loses: the cell is shown, it is not a mine, and the game is STARTED or WON |
| GameRules.LeftClickOnMine | src/components/playing-field/playing-field.tsx:181-202 | a later left click on a mine loses: that cell shows BOMB_EXPLODED, every other cell is shown or is a flagged mine, and wrong flags show BOMB_MISTAKEN |
| GameRules.LeftClickIdempotent | src/components/playing-field/playing-field.tsx:161-204 | a second left click on the same cell changes nothing |
| GameRules.RightClickThrice | src/components/playing-field/playing-field.tsx:206-224 | three right clicks on a cell restore the board, unless the game ends in between |
| GameRules.RightClickFlags | src/components/playing-field/playing-field.tsx:206-224 | a right click flags a cell exactly when it was LOCKED; flagging adds one cell to the marked ones and unflagging removes one |
| GameRules.CycleMarks | src/components/playing-field/playing-field.tsx:216-221 | one step of the mask cycle on a board: FLAG results exactly from LOCKED, and the marked cells grow or shrink by the one cell |
| GameRules.RightClickCounter | src/components/playing-field/playing-field.tsx:154-156 | on a consistent field the mine counter after a right click drops by one for a new flag, rises by one for a removed flag, and stays for a question mark or a shown unit |
| GameRules.FreshConsistent | src/components/playing-field/playing-field.tsx:135-139 | a new field satisfies the invariant, NOT_STARTED with the counter at 40 |
| GameRules.TickConsistent | src/components/playing-field/playing-field.tsx:142-152 | a timer tick keeps the invariant |
| GameRules.RightClickConsistent | src/components/playing-field/playing-field.tsx:206-224 | a right click keeps the invariant (40 mines, GAME_OVER iff a mine went off, WON iff the win test passes, counter = 40 - marked) |
| GameRules.LeftClickConsistent | src/components/playing-field/playing-field.tsx:161-204 | a left click keeps the invariant |
| Engine.Offsets | src/components/playing-field/playing-field.tsx:18 | the nine (i, j) offsets `cartesian([-1, 0, 1], [-1, 0, 1])` yields |
| Engine.OffsetAt | src/components/playing-field/playing-field.tsx:18-19 | step k of `cartesian([-1,0,1],[-1,0,1])` is the offset (k/3 - 1, k%3 - 1), and it names the one cell of the 3 x 3 block with rank k |
| Engine.CountBombsAround | src/components/playing-field/playing-field.tsx:15-25 | the loop over the nine offsets returns the number of mined neighbours on the grid |
| Engine.ExpandNearbyNumbers | src/components/playing-field/playing-field.tsx:60-72 | the numbered neighbours of the cell are shown and nothing else changes |
| Engine.EnqueueNeighbours | src/components/playing-field/playing-field.tsx:114-125 | the queue keeps its entries and gains each hidden EMPTY neighbour not yet queued, once, and nothing else |
| Engine.VisitNext | src/components/playing-field/playing-field.tsx:110-125 | one round of the search: the head is dequeued, recorded as expanded and shown, and the search invariant holds |
| Engine.SearchRegion | src/components/playing-field/playing-field.tsx:107-126 | the search expands every cell of the region once and shows exactly the region |
| Engine.ExpandNumbersAround | src/components/playing-field/playing-field.tsx:127-129 | the numbered border of the expanded cells is shown as well |
| Engine.ExpandArea | src/components/playing-field/playing-field.tsx:102-132 | the grid afterwards is `Expand` of the board before: the clicked cell shown, and for an EMPTY cell its region and numbered border |
| Engine.CountMarkedBombs | src/components/playing-field/playing-field.tsx:27-47 | `markedAtAll` is the number of marked cells and `markedCorrectly` the number of flagged mines |
| Engine.GetFlagsCoords | src/components/playing-field/playing-field.tsx:49-58 | the result lists exactly the flagged cells, each once, in row-major order |
| Engine.NewField | src/components/playing-field/playing-field.tsx:75-81 | a w x h grid (16 x 16 in the game) of new units, each at its own coordinates, EMPTY and LOCKED |
| Engine.PlaceBombs | src/components/playing-field/playing-field.tsx:87-90 | BOMB on exactly the cells the drawn indexes name |
| Engine.NumberCell | src/components/playing-field/playing-field.tsx:94-95 | an EMPTY unit takes the number of mines around it; any other unit is skipped |
| Engine.NumberField | src/components/playing-field/playing-field.tsx:92-97 | after the row-major sweep, every EMPTY unit holds its count, computed as if before the sweep |
| Engine.GenerateField | src/components/playing-field/playing-field.tsx:74-100 | the new grid's units are all new, and its board is `Generated` from the drawn indexes |
| Engine.SweepUnit | src/components/playing-field/playing-field.tsx:189-199 | one unit of the loss sweep: a flag on a safe unit becomes BOMB_MISTAKEN, and every unit but a flagged mine is shown |
| Engine.LossSweep | src/components/playing-field/playing-field.tsx:187-201 | every unit of the grid swept as in a lost game |
| Game.SameUnits | src/components/playing-field/playing-field.tsx:166 | a `copyMatrix` copy shows the same board and holds the same unit objects |
| Game.GenerateFromSample | src/components/playing-field/playing-field.tsx:174 | a `generateField()` call of the playing field (also at lines 136 and 235): a 16 x 16 grid of new units showing the board generated from a valid draw |
| Game.RegenerateField | src/components/playing-field/playing-field.tsx:173-174 | the grid afterwards is the original or all new, and shows the board `Regenerate` describes |
| Game.PutFlagsBack | src/components/playing-field/playing-field.tsx:176-178 | the listed cells get FLAG and nothing else changes |
| Game.FirstClickField | src/components/playing-field/playing-field.tsx:168-179 | the board the first click plays on: regenerated until the cell is safe, with the old flags put back |
| Game.Play | src/components/playing-field/playing-field.tsx:181-202 | the area is expanded; the click is lost exactly when the clicked cell holds a mine, and then the loss is revealed |
| Game.CycleUnitMask | src/components/playing-field/playing-field.tsx:214-221 | only the clicked unit's mask changes, by one step of the cycle |
| Game.RightClickField | src/components/playing-field/playing-field.tsx:212-221 | the copy holds the old units, and its board is the old one with the clicked mask cycled |
| Game.LeftClickField | src/components/playing-field/playing-field.tsx:165-202 | the grid part of a left click, as `LeftClick` describes it |
| Game.PlayingField.constructor | src/components/playing-field/playing-field.tsx:135-139 | on mount the state is `Fresh` of the drawn indexes |
| Game.PlayingField.FieldEffect | src/components/playing-field/playing-field.tsx:154-159 | the effect moves the state as `AfterFieldChange` says |
| Game.PlayingField.Tick | src/components/playing-field/playing-field.tsx:142-152 | one interval tick moves the state as `GameRules.Tick` says |
| Game.PlayingField.Commit | src/components/playing-field/playing-field.tsx:203 | the queued state updates applied together, then the field effect |
| Game.PlayingField.OnSmileyClick | src/components/playing-field/playing-field.tsx:233-239 | a reset gives the `Fresh` state of the new draw |
| Game.PlayingField.HandleCellRightClick | src/components/playing-field/playing-field.tsx:206-224 | the component moves as `RightClick` says |
| Game.PlayingField.HandleCellLeftClick | src/components/playing-field/playing-field.tsx:161-204 | the component moves as `LeftClick` says |

## Left out

- `Math.random` is not modelled as a source of numbers. `RandomNumbers`
  takes the values it returned as a sequence of reals. The playing field
  takes the index lists `randomNumbers(0, 255, 40)` returned.
- Random.RandomNumbers: returns None when the supplied draws run out before
  `count` distinct values are collected. The source keeps drawing, and never
  stops when `count` exceeds `max - min + 1`.
- GameRules.Regenerate: the first-click loop stops when the supplied index
  lists run out, even if the clicked cell is still a mine. The source
  regenerates until the cell is safe. `GameRules.RegenerateSafe` says when
  the result is safe.
- Game.RegenerateField: stops early in the same way as `GameRules.Regenerate`.
- Game.PlayingField.HandleCellLeftClick: requires that every supplied index
  list is a valid `randomNumbers(0, 255, 40)` result. The link to
  `RandomNumbers` is that predicate, not a call.
- Game.PlayingField.HandleCellLeftClick: requires the coordinates to be on
  the grid. The source gets them from the clicked cell, which is always on
  the grid.
- Game.PlayingField.HandleCellRightClick: requires on-grid coordinates, for
  the same reason.
- The timer's `setInterval` / `clearInterval` pair is modelled only as the
  `Tick` method, one call per elapsed second. There are no clocks or timers
  in the model.
- React's state setters are asynchronous and batched. The handlers queue
  their updates and `Commit` applies them together, then runs the field
  effect, as React does when a handler returns. Render timing is not modelled.
- `handleCellPressed` / `handleCellReleased` and `isSmileyScared` only choose
  the smiley's face, so they are left out.
- JSX rendering, CSS, the `Cell` and `SmileyButton` components and the
  scoreboard's class-name strings are left out. The scoreboard is modelled as
  the digits it shows.
- Rows of a grid are immutable sequences of unit references. The source
  never writes into a row array after building it; it writes only into
  units.
- `expandNearbyNumbers` and `expandArea` return the grid they were given.
  The methods return nothing, and callers use the grid they passed.
- Grid sizes: the engine methods take any width and height. The playing
  field fixes 16 x 16 with 40 mines, as the source's constants do.
