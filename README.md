# Tic-tac-toe game engine

A Dafny model of the game logic of a React tic-tac-toe app with move history
and time travel (`tictactoe/src/App.js`). Two modules:

- `Board` (`board.dfy`): the squares of a board (`Cell` is `Empty` or
  `Filled(X)`/`Filled(O)`; `Empty` is the `null` square, and the truthiness
  tests in the source are tests for `Empty`), the eight winning lines in the
  order they are examined, the winner of a board, and the move rule a click
  applies. A board is the subset type `Squares` of sequences of exactly nine
  cells, so "every board has nine cells" holds by typing.
  `Winner` is the reference definition (first complete line in order);
  `CalculateWinner` is the source's loop with early return, proved equal to it.
  `HandleClick` copies the board into a fresh array and writes one square, as
  the source does with `slice()` and an index assignment.
- `History` (`game.dfy`): the class `Game` with the fields `history` (the board
  snapshots) and `currentMove` (the cursor), its invariant `Valid()` (built on
  `ValidHistory`: the history starts at the empty board, and every snapshot
  follows its predecessor by one legal move of the player whose turn the
  cursor parity gives), and the methods `HandlePlay`, `JumpTo` and `Click`
  (the board's click handler wired to `HandlePlay`, as the game renders it).
  Because every method keeps `Valid()`, the lemmas about valid histories
  hold of every game state: marks are never
  overwritten, `X` and `O` alternate, a game has at most ten snapshots, and
  only the last snapshot can have a winner.

## Model

| member | source | states |
|---|---|---|
| `Board.CalculateWinner` | tictactoe/src/App.js:128-149 | scanning the eight lines in order with early return yields exactly the winner of the board (the mark on its first complete line, or none) |
| `Board.WinnerNoneIff` | tictactoe/src/App.js:128-149 | there is no winner exactly when none of the eight lines has three equal non-empty squares |
| `Board.WinnerSomeIff` | tictactoe/src/App.js:129-145 | the winner is `m` exactly when the first complete line, in the fixed order rows, columns, diagonals, holds `m` |
| `Board.EmptyBoardHasNoWinner` | tictactoe/src/App.js:128-149 | the empty starting board has no winner |
| `Board.WinnerOfSingleMark` | tictactoe/src/App.js:140-146 | when some line is complete with `m` and every complete line holds `m`, the winner is `m` whichever complete line the scan reaches first |
| `Board.EachLineWins` | tictactoe/src/App.js:129-138 | for each of the eight lines and each mark, the board holding that mark on that line only has that mark as winner |
| `Board.HandleClick` | tictactoe/src/App.js:20-35 | a click is refused exactly when the board has a winner or the square is filled; otherwise the result equals the board everywhere except square `i`, which gets `X` if `xIsNext` and `O` otherwise |
| `History.Game.constructor` | tictactoe/src/App.js:76-77 | a new game holds one empty board with the cursor on it, and satisfies the invariant |
| `History.Game.XIsNext` | tictactoe/src/App.js:79 | `X` is to move exactly when the cursor is even; it agrees with `MarkFor(currentMove)`, the mark the history invariant requires of the next move |
| `History.Game.CurrentSquares` | tictactoe/src/App.js:81 | the displayed board is the snapshot the cursor selects, and it holds exactly `currentMove` marks |
| `History.Game.HandlePlay` | tictactoe/src/App.js:84-90 | the new history is the old one cut after the cursor plus the new board (so its length is cursor + 2 and earlier snapshots are unchanged), the cursor moves to the new last index, and the invariant is kept |
| `History.Game.JumpTo` | tictactoe/src/App.js:93-95 | only the cursor changes, to the requested index; history is untouched and the invariant is kept |
| `History.Game.Click` | tictactoe/src/App.js:20-35 | on the displayed board, a click on a filled square or after a win leaves history and cursor unchanged; otherwise history becomes the prefix up to the cursor plus a copy of the displayed board with square `i` set to the mark given by cursor parity, and the cursor advances by one |
| `History.HistoryCounts` | tictactoe/src/App.js:79 | snapshot `m` has `9 - m` empty squares, `(m + 1) / 2` `X`s and `m / 2` `O`s: the players alternate, `X` first (an induction over the history invariant, through `CountUpdate`) |
| `History.HistoryLength` | tictactoe/src/App.js:22-24 | since filled squares are refused, a history holds at most ten snapshots |
| `History.TurnAlternation` | tictactoe/src/App.js:28-31 | snapshot `m` is snapshot `m - 1` with one empty square filled, with `X` when `m` is odd and `O` when `m` is even (a direct corollary of the history invariant that every method keeps) |
| `History.MarksArePermanent` | tictactoe/src/App.js:26-32 | a filled square keeps its mark in every later snapshot |
| `History.NoWinnerBeforeLast` | tictactoe/src/App.js:22-24 | no snapshot before the last has a winner: play stops once someone has won (a direct corollary of the history invariant that every method keeps) |

## Left out

- The `Square` component, the JSX of `Board` and `Game`, and the event wiring (App.js:6-14, 49-70, 113-124): rendering only.
- The status line and the move-list labels (App.js:37-47, 97-111): presentation text. The status shows `Winner(CurrentSquares())` when it is present and the player given by `XIsNext()` otherwise.
- React's `useState` hooks and asynchronous re-rendering (App.js:2, 76-77): their effect is modelled as the two fields of `Game`, updated at once.
- The commented-out earlier `Board` and `calculateWinner` (App.js:154-227): dead code duplicating the live logic.
- History.Game.HandlePlay: requires that the new board is one legal move from the displayed one; the source accepts any array, but its only caller is the board's click handler, which always passes such a board.
- History.Game.JumpTo: requires an index inside the history; the source does not check, but is only called with indices of the rendered move list.
- Board.HandleClick: takes a square index 0..8 only; the source is only called with those nine indices.
