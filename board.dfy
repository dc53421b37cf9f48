/**
 * The board component: the status line it shows above the squares, what a
 * click on a square does, and the order in which it lays the squares out.
 */
module Board {
  import opened Cells
  import opened WinDetector

  /** The status shown above the board. */
  datatype Status = Won(player: Player) | Draw | NextPlayer(player: Player)

  /**
   * The status of the board `squares` at move `currentMove`. A winner is
   * announced before anything else; a draw only when there is no winner, the
   * board has nine squares and nine moves have been made; otherwise the player
   * whose turn it is.
   */
  function BoardStatus(squares: seq<Cell>, currentMove: nat, xIsNext: bool): (status: Status)
    ensures status.Won? <==> !NoCompleteLine(squares)
    ensures status.Won? ==> exists k: nat :: IsFirstWin(squares, k) && Wins(squares, Lines[k], status.player)
    ensures status == Draw <==> NoCompleteLine(squares) && |squares| == 9 && currentMove == 9
    ensures status.NextPlayer? ==> status.player == Mark(xIsNext)
  {
    FirstWinnerCorrect(squares);
    var winner := FirstWinner(squares);
    if winner.Win? then Won(winner.mark)
    else if |squares| == 9 && currentMove == 9 then Draw
    else NextPlayer(Mark(xIsNext))
  }

  /**
   * A click on square `i`. It is ignored (None) when the board already has a
   * winner or the square is taken; otherwise it yields the board to play
   * (Some), a copy of `squares` that differs only at `i`, which holds the mark
   * of the player whose turn it is.
   */
  method HandleClick(squares: seq<Cell>, xIsNext: bool, i: nat) returns (nextSquares: Option<seq<Cell>>)
    requires i < |squares|
    ensures nextSquares == None <==> FirstWinner(squares).Win? || squares[i] != Empty
    ensures nextSquares.Some? ==>
              |nextSquares.value| == |squares|
              && nextSquares.value[i] == Marked(Mark(xIsNext))
              && forall j :: 0 <= j < |squares| && j != i ==> nextSquares.value[j] == squares[j]
  {
    var winner := CalculateWinner(squares);
    if winner.Win? || squares[i] != Empty {
      return None;
    }
    var copy := new Cell[|squares|](j requires 0 <= j < |squares| => squares[j]);
    copy[i] := if xIsNext then Marked(X) else Marked(O);
    return Some(copy[..]);
  }

  /**
   * The board's rows of squares as it renders them: three rows of three, row
   * `r` column `c` showing square `c + r * 3`, so every square 0..8 is shown
   * exactly once, at its own row and column.
   */
  method BoardLayout() returns (rows: seq<seq<nat>>)
    ensures |rows| == 3 && forall r :: 0 <= r < 3 ==> |rows[r]| == 3
    ensures forall r, c :: 0 <= r < 3 && 0 <= c < 3 ==> rows[r][c] < 9
    ensures forall square :: 0 <= square < 9 ==> rows[square / 3][square % 3] == square
  {
    rows := [];
    var row := 0;
    while row < 3
      invariant 0 <= row <= 3 && |rows| == row
      invariant forall r :: 0 <= r < row ==> |rows[r]| == 3
      invariant forall r, c :: 0 <= r < row && 0 <= c < 3 ==> rows[r][c] == SquareIndex(r, c)
    {
      var rowSquares := [];
      var col := 0;
      while col < 3
        invariant 0 <= col <= 3 && |rowSquares| == col
        invariant forall c :: 0 <= c < col ==> rowSquares[c] == SquareIndex(row, c)
      {
        var square := col + row * 3;
        rowSquares := rowSquares + [square];
        col := col + 1;
      }
      rows := rows + [rowSquares];
      row := row + 1;
    }
    forall square | 0 <= square < 9 ensures rows[square / 3][square % 3] == square {
      SquareIndexOnto(square);
    }
  }
}
