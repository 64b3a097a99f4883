# Tic-tac-toe slice model

A Dafny model of the game engine behind a browser tic-tac-toe board. The
engine is a Redux Toolkit slice called `ticTacToe`. Its state holds nine
squares plus three cached fields: `winner`, `nextValue` and `status`. It has
two reducers:

- `selectSquare(i)` places the next mark in square `i`, when the move is allowed.
- `restart` rebuilds the initial state.

Three helpers derive the cached fields from the squares:

- `calculateWinner` scans eight fixed lines for three equal marks.
- `calculateNextValue` picks X or O from the parity of the occupied squares.
- `calculateStatus` writes the status line.

Modules, one per part of the engine in `src/App.js`, plus `Scenarios`:

- `Cells` (`cells.dfy`): squares, marks, the board, and the counting behind
  `filter(Boolean)` and `every(Boolean)`. `Empty` stands for the `null` the
  slice stores in a free square, and also for a `null` winner.
- `WinnerDetector` (`winner.dfy`): the `lines` table and the scan. `Winner` is
  the scan as a function. `CalculateWinner` is the source's `for` loop with
  its early return, proved equal to `Winner` and to a direct statement of
  "the first completed line in table order".
- `TurnCalculator` (`turn.dfy`): `NextValue`, and the balance of X and O that
  alternate play keeps.
- `StatusFormatter` (`status.dfy`): the status string, built as the template
  literals build it.
- `TicTacToeSlice` (`slice.dfy`): the state and `initialState`. The two
  reducers are functions from the old state to the new; a refused
  `selectSquare` returns the old state. Also the dispatch of a sequence of
  actions, and the invariants every reachable state keeps.
- `Scenarios` (`scenarios.dfy`): the helpers evaluated on concrete boards:
  four from sample games, and two that play cannot reach, which pin down the
  scan order.

## Model

| member | source | states |
|---|---|---|
| `Cells.Occupied` | src/App.js:126 | The number of non-empty squares, as `squares.filter(Boolean).length` counts them; it never exceeds the number of squares. |
| `Cells.OccupiedIsMarkCount` | src/App.js:126 | The occupied-square count is the number of X squares plus the number of O squares; with the empty squares it adds up to the board size. |
| `Cells.FullIffAllOccupied` | src/App.js:119 | `every(Boolean)` holds exactly when the occupied count equals the board size. |
| `Cells.CountAfterWrite` | src/App.js:20-21 | Writing into a square of the board copy moves one unit of count from the old value to the new one; all other counts stay the same. |
| `Cells.OccupiedAfterMove` | src/App.js:20-21 | Writing a mark into an empty square raises the occupied count by exactly one. |
| `WinnerDetector.WinnerFromSpec` | src/App.js:141-147 | The scan from line `k` returns null exactly when no line from `k` on is completed. Otherwise it returns the mark of the first completed line from `k` on. |
| `WinnerDetector.WinnerSpec` | src/App.js:130-148 | `calculateWinner` returns null exactly when no line is completed. Otherwise it returns the mark of the first completed line in table order, and that line exists. |
| `WinnerDetector.CalculateWinner` | src/App.js:130-148 | The loop with its early return gives null exactly when no line is completed. Otherwise it gives the mark of the first completed line. Its result equals `Winner`. |
| `WinnerDetector.EmptyBoardHasNoWinner` | src/App.js:34-35 | The empty board has no winner. |
| `WinnerDetector.MoveWinsOnlyForMover` | src/App.js:21-22 | On a board with no completed line, writing mark `m` can only complete lines of `m`. The new winner is `m` or null. |
| `TurnCalculator.EmptyBoardTurn` | src/App.js:14 | X moves first, and the empty board is balanced. |
| `TurnCalculator.NextValueAlternates` | src/App.js:125-127 | When the player to move fills an empty square, the turn passes to the other mark. |
| `TurnCalculator.NextValueFromCounts` | src/App.js:125-127 | On a balanced board, X is to move exactly when X and O occur equally often. |
| `TurnCalculator.BalancedAfterMove` | src/App.js:21 | Writing the mark to move into an empty square keeps X equal to O or one ahead of it. |
| `StatusFormatter.MarkChar` | src/App.js:118-121 | A mark is interpolated as the character `X` or `O`, and each character names exactly one mark. |
| `StatusFormatter.Status` | src/App.js:116-122 | The status starts with "Winner: " exactly when there is a winner. It is the scratch text exactly when there is no winner and the board is full. It starts with "Next player: " exactly when there is no winner and a square is free. The named mark is its last character. |
| `StatusFormatter.StatusNamesOneMark` | src/App.js:116-122 | Equal status strings come from the same winner, the same fullness, and, when naming the next player, the same mark. |
| `TicTacToeSlice.SelectSquare` | src/App.js:18-32 | A move with a winner set or on an occupied square leaves the state unchanged. An accepted move puts the pre-move next mark in square `i` and leaves the other eight squares alone. It raises the occupied count by one and leaves `winner`, `nextValue` and `status` equal to the helpers applied to the new board. |
| `TicTacToeSlice.Restart` | src/App.js:33-44 | Whatever the prior state, the result equals `initialState` (minus `currentStep`), and its cached fields are consistent with its board. |
| `TicTacToeSlice.InitialStateWellFormed` | src/App.js:10-16 | The initial state's cached fields agree with the helpers, and its board is balanced. |
| `TicTacToeSlice.SelectSquarePreservesWellFormed` | src/App.js:18-32 | `selectSquare` preserves three things: the cached fields stay consistent, the board stays balanced, and every completed line holds the recorded winner. |
| `TicTacToeSlice.RunPreservesWellFormed` | src/App.js:18-44 | Every sequence of `selectSquare` and `restart` actions preserves that invariant. |
| `TicTacToeSlice.ReachableStates` | src/App.js:10-44 | After any sequence of actions from `initialState`: the count of X equals the count of O or exceeds it by one; the cached fields agree with the board; X is to move exactly when the counts are equal; every completed line holds the recorded winner, so the scan order never changes the result. |
| `TicTacToeSlice.WinnerPersists` | src/App.js:19 | Once a winner is recorded, no sequence of `selectSquare` actions changes the state. |
| `TicTacToeSlice.StatusMeaning` | src/App.js:22-24 | In a consistent state, the status starts with "Winner: " exactly when some line is completed. It is the scratch text exactly when the board is full and no line is completed. |
| `Scenarios.CentreOpening` | src/App.js:116-148 | After X takes the centre, there is no winner, O is to move, and the status is "Next player: O". |
| `Scenarios.TopRowWin` | src/App.js:116-148 | The top row filled with X gives winner X and the status "Winner: X". |
| `Scenarios.FullBoardDraw` | src/App.js:116-148 | A full board with no completed line gives the status "Scratch: Cat's game". |
| `Scenarios.WinOnFullBoard` | src/App.js:116-148 | On a full board with a completed diagonal, the status names the winner. |
| `Scenarios.FirstLineInTableOrder` | src/App.js:131-147 | On two boards that play cannot reach, where both marks complete a column, the column earlier in the table decides the result. |

## Left out

- The React components `Board`, `Game` and `App` (src/App.js:55-113, 150-158) are not modelled. They only render the squares and the status, and dispatch the two actions.
- The Redux store, the `Provider`, and the `useDispatch`/`useSelector` wiring are not modelled; they are library plumbing. Dispatch is modelled only as `Reduce` and `Run`, which apply actions to a state value.
- Immer's rule that a reducer returning `undefined` keeps the current state is modelled as `SelectSquare` returning its input state unchanged.
- `jumpToMove` is taken from the slice's actions, but no reducer defines it, so it has no behaviour to model.
- `currentStep` in `initialState` is dropped. Neither reducer reads it or returns it, so it disappears after the first action.
- Out-of-range square indices are excluded by the `Index` type (0 to 8). In JavaScript an index of 9 or more would silently grow the array.
- The reducers call the function `Winner`, not the method `CalculateWinner`, because a Dafny function cannot call a method. `CalculateWinner` is proved to return `Winner`'s result, so either one gives the same state.
- The board copy `[...state.squares]` is a new sequence value, not a second array. Aliasing between the old and new arrays is not modelled; the source never shares them.
- Whole games dispatched move by move from `initialState` are not evaluated on concrete moves. Only the resulting boards are evaluated, in `Scenarios`. The general lemmas in `TicTacToeSlice` cover every game.
