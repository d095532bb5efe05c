# Campo Minado: a verified model of the game core

This project models the core of the Campo Minado minesweeper game in Dafny: the
board logic (`src/utils/gameLogic.ts`) and the session state machine of the game
component (`src/components/MinesweeperGame.tsx`).

- `types.dfy` holds the records: a `Cell` (mine, revealed, flagged, neighbour count),
  a `Board` (rows of cells, addressed `board[row][col]`), a difficulty and its
  configuration, and the score record.
- `grid.dfy` is the vocabulary the contracts use: positions in bounds, board shape,
  adjacency, a one-cell update, and counting the cells that pass a test, with the
  counting lemmas.
- `game_logic.dfy` holds the board operations. The source copies the board in every
  operation and works on the copy, so the operations take and return board values.
  The ones that loop (mine placement, adjacency counting, reveal, win test) are methods
  whose loops update a local copy. Each is proved against a specification:
  - mine placement adds exactly the requested number of mines, none on or next to the
    first click, and leaves the neighbour counts correct;
  - the reveal changes only hidden, unflagged cells, and only their revealed bit. It
    uncovers the target, its cascade is closed, and every uncovered cell is reached
    from the target through uncovered blank cells. A ghost trail records the order
    of uncovering. The reveal ends because every recursive call sees fewer hidden
    cells;
  - the win test holds exactly when every non-mine cell is revealed.
- `minesweeper_game.dfy` holds the session as a class `Game`. Its fields are the
  component's state variables. It has the new-game, left-click and right-click
  handlers and a clock tick. A session invariant ties the state together: board shape,
  flags remaining plus flags on the board equals the mine count, the right number of
  mines with correct counts after the first click, no revealed mine unless the game is
  lost, and the timer running only in play. Every handler keeps it. The file also has
  the cell display and the clock format, with a round trip for the clock.

A left click that is the first one places the mines and reveals the cell, but it does
not run the win test (`src/components/MinesweeperGame.tsx:56-68`). The model keeps this
behaviour and `MinesweeperGame.Game.HandleCellClick` states it. Its consequence: when
the first cascade uncovers every safe cell, the game stays unwon and can no longer be
won, because every later left click is either ignored (a revealed cell) or a loss (a
mine). `MinesweeperGame.NoWinOnceAllSafeRevealed` proves this.

## Model

| member | source | states |
|---|---|---|
| GameLogic.ConfigFor | src/utils/gameLogic.ts:3-7 | every difficulty has a non-empty board and leaves at least nine mine-free cells, enough for the first-click block |
| GameLogic.ConfigLeavesRoom | src/utils/gameLogic.ts:3-7 | for every difficulty and every first click, the empty board has at least as many acceptable cells as mines, so placement terminates |
| GameLogic.CreateEmptyBoard | src/utils/gameLogic.ts:9-18 | the board has the requested rows and columns and every cell is hidden, unflagged, mine-free with count 0 |
| GameLogic.EmptyBoardFacts | src/utils/gameLogic.ts:9-18 | the empty board has no mines, no flags, no revealed cells, all rows*cols cells hidden, and its counts are already correct |
| GameLogic.NeighbourMines | src/utils/gameLogic.ts:61-76 | a cell has between 0 and 8 neighbouring mines |
| GameLogic.NoMineNeighbours | src/utils/gameLogic.ts:61-76 | a neighbour count is zero exactly when no on-board neighbour is a mine (both directions) |
| GameLogic.SameMinesSameCounts | src/utils/gameLogic.ts:51-84 | neighbour counts depend only on where the mines are |
| GameLogic.CalculateAdjacentMines | src/utils/gameLogic.ts:51-84 | every non-mine cell gets the number of its neighbouring mines, mines and all other fields are kept, and the result's counts are correct |
| GameLogic.PlaceMines | src/utils/gameLogic.ts:20-49 | exactly totalMines new mines, each on a cell that was not a mine and is not on or next to the first click; reveal and flag state kept; counts correct afterwards |
| GameLogic.FirstClickSafe | src/utils/gameLogic.ts:36-42 | on a mine-free board, placement leaves the first click and its neighbours free of mines |
| GameLogic.EligibleOnMineFreeBoard | src/utils/gameLogic.ts:32-46 | on a mine-free rows-by-cols board the placement loop can accept at least rows*cols - 9 cells |
| GameLogic.RevealCell | src/utils/gameLogic.ts:86-125 | no-op off the board or on a revealed or flagged cell; otherwise the target is uncovered, only hidden unflagged cells change and only their revealed bit, the cascade is closed, each uncovered cell is reached through blank cells, and the hidden count drops |
| GameLogic.RevealNeighbours | src/utils/gameLogic.ts:108-122 | the loop over the eight neighbours of an uncovered blank target completes the reveal specified for RevealCell |
| GameLogic.RevealNeighbourRow | src/utils/gameLogic.ts:111-120 | one row of neighbour offsets: every unflagged neighbour visited so far is revealed and the cascade state is kept |
| GameLogic.RevealIdempotent | src/utils/gameLogic.ts:95-104 | revealing the same cell a second time changes nothing |
| GameLogic.CascadeRevealsNoMine | src/utils/gameLogic.ts:108-122 | with correct counts, the cascade uncovers no mine other than the clicked cell |
| GameLogic.RevealKeepsBoardFacts | src/utils/gameLogic.ts:106-121 | a reveal keeps the mine count, the flag count and correct neighbour counts, and never adds hidden cells |
| GameLogic.CheckWin | src/utils/gameLogic.ts:127-141 | the result is true exactly when revealed non-mine cells equal all cells minus totalMines |
| GameLogic.WinIffAllSafeRevealed | src/utils/gameLogic.ts:127-141 | when totalMines is the board's mine count, the win test holds exactly when every non-mine cell is revealed |
| GameLogic.WinIgnoresFlags | src/utils/gameLogic.ts:127-141 | boards that agree on mines and reveals agree on the win test, whatever their flags |
| MinesweeperGame.RevealAll | src/components/MinesweeperGame.tsx:73-75 | the loss board is the board with every cell revealed and nothing else changed |
| MinesweeperGame.RevealAllFacts | src/components/MinesweeperGame.tsx:71-78 | after a loss no cell is hidden, and mine count, flag count and correct counts are kept |
| MinesweeperGame.ToggleFlag | src/components/MinesweeperGame.tsx:105-114 | only the clicked cell changes, and only its flag, which is flipped |
| MinesweeperGame.ToggleFlagTwice | src/components/MinesweeperGame.tsx:105-114 | flipping a flag twice gives back the original board |
| MinesweeperGame.ToggleFlagCount | src/components/MinesweeperGame.tsx:105-116 | a flip adds one flag when it sets one and removes one when it clears one |
| MinesweeperGame.RevealKeepsRevealedSafe | src/components/MinesweeperGame.tsx:79-81 | revealing a non-mine cell on a board whose revealed cells are safe and unflagged keeps them so |
| MinesweeperGame.FirstClickKeepsInvariant | src/components/MinesweeperGame.tsx:56-68 | the first click leads to a valid session with the timer on, the cell revealed and its block mine-free |
| MinesweeperGame.LossKeepsInvariant | src/components/MinesweeperGame.tsx:71-78 | a click on a mine leads to a valid lost session with the timer off |
| MinesweeperGame.SafeClickKeepsInvariant | src/components/MinesweeperGame.tsx:79-95 | a click on a safe cell leads to a valid session that is won exactly when the win test holds |
| MinesweeperGame.ToggleKeepsInvariant | src/components/MinesweeperGame.tsx:98-117 | a right click that is not ignored keeps the flag budget balanced and the session valid |
| MinesweeperGame.FirstClickBoard | src/components/MinesweeperGame.tsx:56-68 | the first click places the configured mines away from the click, then reveals the click on the mined board, leaving a valid session |
| MinesweeperGame.Game.constructor | src/components/MinesweeperGame.tsx:17-24 | the initial state: no difficulty, empty board, waiting for the first click, timer stopped at zero |
| MinesweeperGame.Game.StartNewGame | src/components/MinesweeperGame.tsx:39-49 | a fresh empty board of the difficulty's size, full flag budget, clock at zero and stopped, session valid |
| MinesweeperGame.Game.HandleCellClick | src/components/MinesweeperGame.tsx:51-96 | ignored when over, won, flagged or revealed; the first click places mines and reveals without a win check; a mine loses and reveals all; a safe cell reveals and wins exactly when the win test holds, stopping the timer and returning the score |
| MinesweeperGame.Game.FirstClick | src/components/MinesweeperGame.tsx:56-68 | the mined board is revealed at the click, the first-click flag goes off, the timer starts and the click's block has no mine |
| MinesweeperGame.Game.HandleCellRightClick | src/components/MinesweeperGame.tsx:98-117 | ignored when over, won, revealed or before the first click; otherwise flips the flag and moves the budget the other way, keeping the session valid |
| MinesweeperGame.Game.Tick | src/components/MinesweeperGame.tsx:26-37 | the clock advances by one only while the timer runs in an unfinished game; nothing else changes |
| MinesweeperGame.RightClickTwice | src/components/MinesweeperGame.tsx:98-117 | two right clicks on one cell give back the board and the flag budget |
| MinesweeperGame.EasyFirstClickScenario | src/components/MinesweeperGame.tsx:39-68 | an easy game's first click at (4, 4) reveals that cell, keeps its block mine-free and places ten mines |
| MinesweeperGame.NoWinOnceAllSafeRevealed | src/components/MinesweeperGame.tsx:51-96 | in a started game that is not won although every safe cell is revealed, which the first click can leave because it skips the win test, a left click never wins: it is ignored or it loses |
| MinesweeperGame.GetCellContent | src/components/MinesweeperGame.tsx:119-137 | a flag is shown exactly on a flagged cell; nothing is shown exactly on an unflagged cell that is hidden or is a revealed non-mine with count 0; a mine exactly on an unflagged revealed mine; otherwise the cell's count |
| MinesweeperGame.DisplayShowsNeighbourMines | src/components/MinesweeperGame.tsx:119-137 | on a board with correct counts, a revealed safe cell shows the number of its neighbouring mines, between 1 and 8, or nothing when there are none |
| MinesweeperGame.NatToStringRoundTrip | src/components/MinesweeperGame.tsx:156 | the decimal form of a number is a non-empty string of digits, without a leading zero unless the number is 0, one character long exactly below 10, and reads back as the number |
| MinesweeperGame.FormatTime | src/components/MinesweeperGame.tsx:153-157 | the clock string is the whole minutes in decimal without leading zeros, a colon, and the seconds within the minute on exactly two digits |
| MinesweeperGame.FormatTimeRoundTrip | src/components/MinesweeperGame.tsx:153-157 | the clock string shows seconds / 60 and seconds % 60 in m:ss form and reads back as the elapsed seconds |

## Left out

- Rendering: the JSX layout, `getCellColor`, `getCellSize` and all styling are not modelled.
- The difficulty modal, the scoreboard and score storage (`src/utils/storage.ts`) are not part of this model. A win returns the score record, and nothing stores it.
- The score's date (`new Date().toISOString()`) is a clock read and is left out of `GameScore`.
- The "new game" button that clears the difficulty (`setDifficulty(null)`) is not modelled. `StartNewGame` covers choosing a difficulty.
- The one-second interval is modelled as an explicit `Tick` call. Timer scheduling and clean-up are left out.
- The reveal after the first click is deferred with `setTimeout(…, 0)`. The model runs it at once, so no event can come in between.
- `Math.random`: PlaceMines picks any acceptable cell by nondeterministic choice. Rejected samples change nothing and are left out, and the probability distribution is not modelled.
- PlaceMines requires enough acceptable cells. The source loops forever otherwise, and ConfigLeavesRoom shows that every difficulty meets this.
- The handlers require a chosen difficulty and in-bounds coordinates, which the rendered buttons guarantee. Out-of-bounds clicks are not modelled.
- React's batched and asynchronous state updates are modelled as sequential field assignments.
- Boards are values. The element-wise copy-back after each recursive reveal (`src/utils/gameLogic.ts:114-118`) becomes one assignment of the same-shaped board, so aliasing between board copies is not modelled.
- RevealCell's two nested offset loops are modelled as two helper methods, RevealNeighbours and RevealNeighbourRow, with the same visiting order.
- JavaScript numbers are modelled as unbounded integers. No count or the clock gets anywhere near their precision limits.
- Number-to-string conversion: the model writes its own decimal conversion for `toString` and `padStart`; the host's conversion is not modelled.
