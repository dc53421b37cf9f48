# Tic-tac-toe game logic in Dafny

A model of the game logic of a browser tic-tac-toe app (`src/App.js`): the
nine-square board, the win detector `calculateWinner`, the board component's
click handler and status line, and the game component's history of board
snapshots with its `currentMove` pointer.

- `cells.dfy`, module `Cells`: players `X`/`O`, squares (`Empty` for the
  source's `null`), the empty board, mark counts, whose turn it is, and the
  `col + row * 3` square index.
- `winner.dfy`, module `WinDetector`: the table of eight lines in the source's
  order (rows, columns, diagonals). `CalculateWinner` is the source's loop with
  its early return. It is proved against `FirstWinner`, a recursive scan of the
  same table that the functions and lemmas use.
- `board.dfy`, module `Board`: `BoardStatus` (winner, else draw, else next
  player), `HandleClick` (ignore the click or return the copied board with one
  square marked), and `BoardLayout` (the nested loop that gives each row and
  column its square).
- `game.dfy`, module `GameState`: class `Game` with fields `history` and
  `currentMove`, and methods `HandlePlay`, `JumpTo` and `HandleClick`. The class
  invariant `Valid()` says that the pointer is inside the history and that the
  history is legal. A legal history starts from the empty board, and each
  snapshot is the one before with one empty square marked by the player whose
  turn it was, on a board with no winner. Lemmas about legal histories prove:
  - snapshot `k` holds `(k + 1) / 2` X's, `k / 2` O's and `9 - k` empty squares;
  - a history has at most ten snapshots;
  - the board is full exactly at move 9, so the source's draw test on the move
    number agrees with a test on the squares;
  - the winner is always the player who made the last move.

`TopRowScenario` in `game.dfy` is a client of `Game` whose assertions are
proved for the game X 0, O 4, X 1, O 5, X 2: X wins on the top row. Jumping
back to the start shows the empty board and keeps all six snapshots. A new move
from there cuts the history to two snapshots.

Two details follow the code closely:
- The draw test is `squares.length == 9 && currentMove == 9`, not the move
  number alone.
- An out-of-range square in `calculateWinner` reads as empty, as the source's
  `undefined` does.

## Model

| member | source | states |
|---|---|---|
| Cells.SquareIndex | src/App.js:42 | the index `col + row * 3` of a square lies in 0..8 and gives back its row (`/ 3`) and column (`% 3`) |
| Cells.SquareIndexOnto | src/App.js:38-42 | every index 0..8 is the index of its own row and column, so row/column to index is a bijection |
| WinDetector.WinnerFromCorrect | src/App.js:138-145 | scanning from line `k` on reports no winner iff no later line is complete; otherwise it reports the first complete line from `k` on and the mark that fills all three of its squares |
| WinDetector.FirstWinnerCorrect | src/App.js:126-146 | the detector reports `[null, null]` iff no line has three equal marks; a reported line is one of the eight triples, it is the first complete one in table order, and all its squares hold the reported mark |
| WinDetector.WinsMeansWinner | src/App.js:138-143 | a board with any line filled by one mark always has a winner reported |
| WinDetector.CalculateWinner | src/App.js:126-146 | the loop with early return reports exactly the first complete line and its mark, or no winner iff no line is complete |
| Board.BoardStatus | src/App.js:19-28 | a winner is announced iff some line is complete; a draw iff no line is complete, the board has nine squares and the move is 9; otherwise the next player is X when `xIsNext` and O otherwise |
| Board.HandleClick | src/App.js:30-35 | the click is ignored iff there is a winner or the square is taken; otherwise the new board has the same length, holds the current player's mark at `i` and equals the old one everywhere else |
| Board.BoardLayout | src/App.js:37-58 | the rows hold three squares each, every entry is a square 0..8, and square `s` is shown at row `s / 3`, column `s % 3`, so each square appears exactly once |
| GameState.MoveCounts | src/App.js:69-79 | snapshot `k` of a legal history holds `(k + 1) / 2` X's, `k / 2` O's and `9 - k` empty squares, and `k <= 9` |
| GameState.HistoryAtMostTen | src/App.js:75-79 | a legal history never holds more than ten snapshots |
| GameState.FullIffNinthMove | src/App.js:24 | in a legal history the board is full exactly at move 9 |
| GameState.EmptyBoardNoWinner | src/App.js:69 | the starting board has no winner |
| GameState.LastMoverWins | src/App.js:31-33 | every complete line at move `k >= 1` is filled by the player who made move `k`, and so is the reported winner |
| GameState.ExtendLegal | src/App.js:75-79 | cutting a legal history after snapshot `k` and appending a legal move from it leaves a legal history |
| GameState.Game.constructor | src/App.js:69-70 | a new game holds one empty snapshot with the pointer on it |
| GameState.Game.CurrentSquares | src/App.js:72 | the snapshot on show has nine squares |
| GameState.Game.XIsNext | src/App.js:71 | X is to move iff the pointer is even, which in a legal game is iff the board holds as many X's as O's |
| GameState.Game.CurrentStatus | src/App.js:21-28 | a winner is announced iff a line is complete, and it is the last mover; a draw iff no line is complete and the board is full; otherwise the board has an empty square and the next player is X iff X's and O's are equal in number |
| GameState.Game.HandlePlay | src/App.js:75-79 | the history becomes `history[..currentMove + 1] + [next]` and the pointer moves to its new last index; legality is kept |
| GameState.Game.JumpTo | src/App.js:81-83 | only the pointer changes; the history is untouched |
| GameState.Game.HandleClick | src/App.js:30-35 | on a board with a winner or an occupied square nothing changes; otherwise the snapshot on show with square `i` marked for the player to move is played, cutting the later snapshots |

## Left out

- Rendering: the `Square` and `BoardRow` components, class names, the JSX tree and the highlight of winning squares (`winnerCells?.includes`). They are presentation only. `BoardLayout` keeps only which square goes in which row and column.
- React's `useState`: `setHistory` and `setCurrentMove` are direct field assignments, and re-rendering is not modelled.
- The move list: its labels, the ascending/descending toggle (`moveListAsc`) and `moves.reverse()`. `JumpTo` requires a move inside the history, because the list offers only those.
- Status text: the status is a datatype (`Won`, `Draw`, `NextPlayer`), not a string.
- GameState.Game.HandlePlay: requires the new board to be a legal move from the one on show. Its only caller, the click handler, passes nothing else; the source's `handlePlay` would append any array.
- Board.HandleClick: requires `i` to be a square of the board. The click handlers only pass 0..8, so the source's array growth on a write past the end is not modelled.
