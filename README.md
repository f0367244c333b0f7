# Tic-tac-toe game state, modelled in Dafny

This project models the game logic of a React tic-tac-toe component with
time travel (`src/index.js`). The component keeps the full history of
boards, the step on display (`stepNumber`), whose turn it is (`xIsNext`),
the highlighted step of the move list (`selectedStep`) and the order of
that list (`sortOrder`). Three event handlers change that state: a click on
a cell (`handleClick`), a click on a move (`jumpTo`) and a click on the
order button (`toggleSortOrder`). Two helper functions scan the board for a
winner (`calculateWinner`) and turn a cell index into a row and a column
(`calculateRowCol`). `render` derives the status line and the move list
from the state.

Modules, one per part of the source file:

- `Wrappers` (wrappers.dfy): `Option`, standing for `null` and `{}`.
- `Rules` (rules.dfy): players, cells, the table of eight lines,
  `calculateWinner` as a method with a loop, proved against the function
  `Winner` (the first complete line in table order), and `calculateRowCol`.
- `GameState` (game.dfy): the `Game` class with the five state fields, its
  invariant `Valid()` and the three handlers. The invariant says more than
  the bounds: every history the game builds starts at the empty board, and
  each entry follows the one before it by one ply. That ply is X on even
  steps and O on odd ones. It lands on an empty cell of a board with no
  complete line, at the row and column the entry records. From this the
  model proves that the board at step `k` has exactly `k` marks, so a
  history never holds more than ten entries.
- `View` (view.dfy): the status line, the move-list entries and their
  order, and `Render`, which computes them from a `Game` the way `render`
  does.

The code keeps `xIsNext` as a field of its own next to `stepNumber`. The
model keeps both fields, as the code does, and its invariant proves
`xIsNext == (stepNumber % 2 == 0)`. The status names the player to move
from `xIsNext`, as the code does.

The draw status tests the length of the whole history (`history.length ===
10`), not the step on display. The model keeps this as written.
`View.DrawAtLastStepIffFull` shows that at the last step it means "the
board is full and nobody won". `View.DrawShownAfterJumpBack` shows the other
side: after jumping back in a ten-entry game to a board with no complete
line, the status still reads as a draw, though that board has empty cells.

## Model

| member | source | states |
|---|---|---|
| `Rules.ScanFrom` | src/index.js:167-176 | the scan from table position `k` finds nothing exactly when no line from `k` on is complete; otherwise it reports the mark and the line of the first complete line from `k` on |
| `Rules.Winner` | src/index.js:156-177 | no winner exactly when none of the eight lines is complete; otherwise the result is the first complete line in table order (rows, then columns, then diagonals) with the mark that fills it |
| `Rules.ScanReportsFirstLine` | src/index.js:167-175 | whichever line is the first complete one, that line and its mark are what the scan reports, so an earlier line in the table wins over a later one |
| `Rules.CalculateWinner` | src/index.js:156-177 | the loop over the line table with its early return computes exactly `Winner` |
| `Rules.LINES` | src/index.js:157-166 | the eight lines in the order they are scanned: the three rows, the three columns, then the two diagonals |
| `Rules.Complete` | src/index.js:169 | a line is complete when its first cell holds a mark and the other two cells hold the same mark; a cell index past the end of the board reads as empty, as an out-of-range array read is falsy |
| `Rules.CalculateRowCol` | src/index.js:179-184 | the column is in 1..3 and the row is at least 1; the row is at most 3 exactly when the index is below 9; `(row - 1) * 3 + (col - 1)` gives the index back |
| `Rules.RowColOfCellIndex` | src/index.js:179-184 | every row and column in 1..3 is the image of its own cell index, so the mapping is a bijection between 0..8 and the 3x3 grid |
| `GameState.NextMark` | src/index.js:66 | the mark the player to move places: X when `xIsNext`, O otherwise; ply `n` places the mark of the parity of `n` |
| `GameState.PlaceAt` | src/index.js:66-75 | the entry a click appends records a row and a column (row at least 1, column in 1..3) that identify the clicked cell |
| `GameState.KeepAndAppend` | src/index.js:60-75 | dropping the entries after the displayed step and appending an entry that follows it keeps a history well-formed |
| `GameState.PlaceFollows` | src/index.js:62-75 | placing the mark of ply `s` on an empty cell of a board with no complete line gives an entry that follows it |
| `GameState.ClickKeepsWellFormed` | src/index.js:59-79 | a click that is not ignored keeps the history well-formed |
| `GameState.NoWinBeforeLast` | src/index.js:63-65 | in a history the game builds, no board before the last has a complete line: once a line is complete, every later click is ignored and adds no entry |
| `GameState.FilledPlace` | src/index.js:62-66 | writing a mark on an empty cell of the copied board fills exactly one more cell |
| `GameState.FilledAlongHistory` | src/index.js:44-79 | in a history the game builds, the board at step `k` has exactly `k` marks |
| `GameState.HistoryAtMostTen` | src/index.js:59-79 | a history the game builds never holds more than ten entries |
| `GameState.LastBoardFullAtTen` | src/index.js:122 | a history of ten entries ends with a full board |
| `GameState.TurnMatchesBoard` | src/index.js:77 | the turn the game keeps agrees with the board: X is to move exactly when an even number of cells is taken |
| `GameState.Toggled` | src/index.js:92 | the toggled order differs from the old one |
| `GameState.ToggledTwice` | src/index.js:90-94 | toggling the order twice gives the original order back |
| `GameState.Game.Valid` | src/index.js:44-94 | the state invariant: the history is well-formed (it starts at the empty board, every board has nine cells, each later entry places the next mark on an empty cell of a board with no complete line, at the row and column it records), the step is an index of it, the highlighted step is the step, and X is to move exactly when the step is even |
| `GameState.Game.CurrentBoard` | src/index.js:61-62 | the board on display has nine cells |
| `GameState.Game.constructor` | src/index.js:44-57 | one all-empty entry with no row or column, step 0, X to move, step 0 highlighted, order 'ASC'; the invariant holds |
| `GameState.Game.HandleClick` | src/index.js:59-80 | on a board that has a winner or a taken cell `i`, nothing changes; otherwise the history becomes the entries up to the displayed step plus one new entry: the board with the mover's mark at `i`, with `calculateRowCol(i)`; the kept entries are unchanged; the step and the highlighted step both become the new last index, the turn flips, the order is unchanged and the invariant is kept |
| `GameState.Game.JumpTo` | src/index.js:82-88 | the step and the highlighted step become `step`, the turn is the parity of `step`, history and order are unchanged, and the invariant is kept |
| `GameState.Game.ToggleSortOrder` | src/index.js:90-94 | the order flips and every other field is unchanged |
| `View.Status` | src/index.js:119-126 | 'Winner X' or 'Winner O' exactly when the board has a complete line; 'Draw, no one wins' exactly when there is none and the history holds ten entries; otherwise 'Next player: X' or 'Next player: O' exactly as `xIsNext` says |
| `View.StatusNamesFirstLine` | src/index.js:99-121 | the winner named by the status is the mark of the first complete line in table order |
| `View.DrawAtLastStepIffFull` | src/index.js:122-123 | at the last step of a game, the draw status shows exactly when the board is full and has no complete line |
| `View.DrawShownAfterJumpBack` | src/index.js:122-123 | in a ten-entry game, every step without a complete line shows the draw status, even though the board of every step before the last has an empty cell |
| `View.NatToString` | src/index.js:105-107 | a number prints as a non-empty string of decimal digits with no leading zero |
| `View.NatToStringRoundTrip` | src/index.js:105-107 | reading the printed digits back gives the number |
| `View.Description` | src/index.js:104-106 | the label is 'Go to game start' exactly for move 0; any other move reads 'Go to move #' and its number |
| `View.Coordinates` | src/index.js:107 | the suffix is empty exactly when the row is missing or 0, as the JavaScript truth test on the row decides; with a row but no column the column prints as 'null' |
| `View.EntryFor` | src/index.js:103-112 | the entry for history entry `move` jumps to `move`, shows its label followed by its coordinates, and is selected when `move` is the highlighted step |
| `View.ReverseAt` | src/index.js:115-117 | entry `k` of the reversed list is entry `n - 1 - k` of the original |
| `View.ReverseTwice` | src/index.js:115-117 | reversing twice gives the list back |
| `View.MoveList` | src/index.js:103-117 | one entry per history entry: in history order under 'ASC', in reverse order otherwise |
| `View.ToggleTwiceRestoresMoveList` | src/index.js:90-117 | toggling the order twice gives back the same move list, and toggling once reverses it |
| `View.SelectedEntry` | src/index.js:109 | an entry is marked selected exactly when it is the highlighted step's entry |
| `View.CoordinatesOfPly` | src/index.js:104-107 | the starting entry has no coordinates; every later entry shows ' (row, col)' for the cell its ply took, as `calculateRowCol` gives them |
| `View.Render` | src/index.js:96-126 | the board shown is the board at `stepNumber`; a line is highlighted exactly when one is complete, and it is the first complete one; the status and the move list are `Status` and `MoveList` of the state |

## Left out

- The `Square` and `Board` components, the JSX in `Game.render`, the CSS import and `console.log`: presentation only. Which squares get the winner style is modelled by the line `Render` returns.
- The grid-building loops in `Board.render`: layout only. Their index arithmetic `i * 3 + j` is `Rules.CellIndex`, and `Rules.RowColOfCellIndex` relates it to `calculateRowCol`.
- `ReactDOM.render` and the mounting into the page: I/O.
- The scheduling of `setState` and re-rendering: each handler is one atomic update of the state.
- The text of the order button, which prints `sortOrder`: presentation only.
- `GameState.Game.HandleClick`: requires `i < 9`. The board only ever passes its own cell indices, and an index past the board is not modelled.
- `GameState.Game.JumpTo`: requires a valid step. The move list only offers indices of the history, and the source leaves other values undefined (the next render would fail).
- Aliasing of boards: the history holds board values. The source copies the board with `slice()` before writing, so no two entries share an array, and values behave the same. The copy and the write in `HandleClick` are made on a fresh array.
- Number-to-text conversion is modelled for natural numbers only (`View.NatToString`), which is all the labels print.
