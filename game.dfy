/**
 * The game: the history of board snapshots, the pointer to the snapshot on
 * show, and the moves that extend the history or move the pointer.
 */
module GameState {
  import opened Cells
  import opened WinDetector
  import opened Board

  /**
   * `after` is `before` with one empty square marked by the player whose turn
   * it is at move `move`, and `before` has no winner (a click on a won board
   * is ignored).
   */
  ghost predicate IsMove(before: seq<Cell>, after: seq<Cell>, move: nat)
  {
    !FirstWinner(before).Win?
    && exists i :: 0 <= i < |before| && before[i] == Empty && after == before[i := Marked(Mark(XIsNext(move)))]
  }

  /**
   * A history as the game builds it: it starts from the empty board, every
   * snapshot has nine squares, and each snapshot is a move on the one before.
   */
  ghost predicate LegalHistory(history: seq<seq<Cell>>)
  {
    |history| >= 1
    && history[0] == EmptyBoard
    && (forall k :: 0 <= k < |history| ==> |history[k]| == 9)
    && forall k :: 0 <= k < |history| - 1 ==> IsMove(history[k], history[k + 1], k)
  }

  /**
   * Snapshot `k` of a legal history holds `k` marks, X having moved first:
   * (k + 1) / 2 X's, k / 2 O's and 9 - k empty squares. So no history is
   * longer than ten snapshots.
   */
  lemma {:induction false} MoveCounts(history: seq<seq<Cell>>, k: nat)
    requires LegalHistory(history) && k < |history|
    ensures Count(history[k], Marked(X)) == (k + 1) / 2
    ensures Count(history[k], Marked(O)) == k / 2
    ensures Count(history[k], Empty) == 9 - k
    ensures k <= 9
  {
    if k == 0 {
      CountAllEmpty(EmptyBoard, Marked(X));
      CountAllEmpty(EmptyBoard, Marked(O));
      CountAllEmpty(EmptyBoard, Empty);
    } else {
      MoveCounts(history, k - 1);
      var before := history[k - 1];
      var mark := Marked(Mark(XIsNext(k - 1)));
      assert IsMove(before, history[k], k - 1);
      var i :| 0 <= i < |before| && before[i] == Empty && history[k] == before[i := mark];
      CountPlace(before, i, mark, Marked(X));
      CountPlace(before, i, mark, Marked(O));
    }
  }

  /** A legal history holds at most ten snapshots: the empty board and nine moves. */
  lemma HistoryAtMostTen(history: seq<seq<Cell>>)
    requires LegalHistory(history)
    ensures |history| <= 10
  {
    MoveCounts(history, |history| - 1);
  }

  /**
   * Snapshot `k` of a legal history is full exactly at move 9, which is why
   * the status may test the move number for a draw instead of the squares.
   */
  lemma FullIffNinthMove(history: seq<seq<Cell>>, k: nat)
    requires LegalHistory(history) && k < |history|
    ensures Full(history[k]) <==> k == 9
  {
    MoveCounts(history, k);
    FullIffNoEmpty(history[k]);
  }

  /** The starting board has no winner. */
  lemma EmptyBoardNoWinner()
    ensures FirstWinner(EmptyBoard) == NoWinner
  {
    FirstWinnerCorrect(EmptyBoard);
  }

  /**
   * In a legal history, every complete line of snapshot `k` (for k >= 1) is
   * filled by the player who made move k, and so is the winner reported:
   * one move can only complete lines through the square it marks.
   */
  lemma LastMoverWins(history: seq<seq<Cell>>, k: nat)
    requires LegalHistory(history) && 1 <= k < |history|
    ensures forall j :: 0 <= j < |Lines| && Complete(history[k], Lines[j]) ==>
              At(history[k], Lines[j].a) == Marked(Mark(XIsNext(k - 1)))
    ensures FirstWinner(history[k]).Win? ==> FirstWinner(history[k]).mark == Mark(XIsNext(k - 1))
  {
    var before, after := history[k - 1], history[k];
    var mark := Marked(Mark(XIsNext(k - 1)));
    assert IsMove(before, after, k - 1);
    var i :| 0 <= i < |before| && before[i] == Empty && after == before[i := mark];
    FirstWinnerCorrect(before);
    forall j | 0 <= j < |Lines| && Complete(after, Lines[j])
      ensures At(after, Lines[j].a) == mark
    {
      var line := Lines[j];
      assert line.a != i && line.b != i && line.c != i ==> Complete(before, line);
      assert !Complete(before, line);
    }
    FirstWinnerCorrect(after);
  }

  /**
   * Making a legal move from snapshot `k` after cutting the history at `k`
   * leaves a legal history.
   */
  lemma ExtendLegal(history: seq<seq<Cell>>, k: nat, next: seq<Cell>)
    requires LegalHistory(history) && k < |history| && IsMove(history[k], next, k)
    ensures LegalHistory(history[..k + 1] + [next])
  {
    var extended := history[..k + 1] + [next];
    assert extended[k] == history[k];
    forall j | 0 <= j < |extended| - 1 ensures IsMove(extended[j], extended[j + 1], j) {
      if j < k {
        assert extended[j] == history[j] && extended[j + 1] == history[j + 1];
      }
    }
  }

  /**
   * The game's state: the snapshots played so far and the move on show.
   * Playing from an earlier move cuts off the later snapshots; jumping moves
   * only the pointer.
   */
  class Game {
    var history: seq<seq<Cell>>
    var currentMove: nat

    /** The pointer is inside the history, and the history is legal. */
    ghost predicate Valid()
      reads this
    {
      currentMove < |history| && LegalHistory(history)
    }

    /** A new game: one empty snapshot, on show. */
    constructor ()
      ensures Valid()
      ensures history == [EmptyBoard] && currentMove == 0
    {
      history := [EmptyBoard];
      currentMove := 0;
    }

    /** The snapshot on show; it always has nine squares. */
    function CurrentSquares(): (squares: seq<Cell>)
      reads this
      requires Valid()
      ensures |squares| == 9
    {
      history[currentMove]
    }

    /**
     * X is to move exactly when the move number is even, which in a legal game
     * is exactly when the board on show holds as many X's as O's.
     */
    function XIsNext(): (xIsNext: bool)
      reads this
      requires Valid()
      ensures xIsNext <==> currentMove % 2 == 0
      ensures xIsNext <==> Count(CurrentSquares(), Marked(X)) == Count(CurrentSquares(), Marked(O))
    {
      MoveCounts(history, currentMove);
      Cells.XIsNext(currentMove)
    }

    /**
     * The status of the game on show. A draw is reported exactly when no line
     * is complete and the board is full; a winner is the player who made the
     * last move; otherwise the next player is X exactly when X's and O's are
     * equal in number, and the board still has an empty square.
     */
    function CurrentStatus(): (status: Status)
      reads this
      requires Valid()
      ensures status.Won? <==> !NoCompleteLine(CurrentSquares())
      ensures status.Won? ==> currentMove >= 1 && status.player == Mark(Cells.XIsNext(currentMove - 1))
      ensures status == Draw <==> NoCompleteLine(CurrentSquares()) && Full(CurrentSquares())
      ensures status.NextPlayer? ==> !Full(CurrentSquares())
      ensures status.NextPlayer? ==>
                (status.player == X <==> Count(CurrentSquares(), Marked(X)) == Count(CurrentSquares(), Marked(O)))
    {
      FullIffNinthMove(history, currentMove);
      if currentMove == 0 then
        EmptyBoardNoWinner();
        BoardStatus(CurrentSquares(), currentMove, XIsNext())
      else
        LastMoverWins(history, currentMove);
        BoardStatus(CurrentSquares(), currentMove, XIsNext())
    }

    /**
     * Plays `nextSquares` from the move on show: the snapshots after it are
     * dropped, `nextSquares` is appended, and the pointer moves to it.
     */
    method HandlePlay(nextSquares: seq<Cell>)
      requires Valid() && IsMove(history[currentMove], nextSquares, currentMove)
      modifies this
      ensures Valid()
      ensures history == old(history[..currentMove + 1]) + [nextSquares]
      ensures currentMove == old(currentMove) + 1 == |history| - 1
    {
      ExtendLegal(history, currentMove, nextSquares);
      var nextHistory := history[..currentMove + 1] + [nextSquares];
      history := nextHistory;
      currentMove := |nextHistory| - 1;
    }

    /** Shows snapshot `nextMove`; the history stays as it is. */
    method JumpTo(nextMove: nat)
      requires Valid() && nextMove < |history|
      modifies this`currentMove
      ensures Valid()
      ensures currentMove == nextMove && history == old(history)
    {
      currentMove := nextMove;
    }

    /**
     * A click on square `i` of the board on show. It changes nothing when the
     * board has a winner or the square is taken; otherwise the snapshot on show
     * with square `i` marked for the player to move is played.
     */
    method HandleClick(i: nat)
      requires Valid() && i < 9
      modifies this
      ensures Valid()
      ensures var squares := old(CurrentSquares());
              if FirstWinner(squares).Win? || squares[i] != Empty then
                history == old(history) && currentMove == old(currentMove)
              else
                history == old(history[..currentMove + 1]) + [squares[i := Marked(Mark(Cells.XIsNext(old(currentMove))))]]
                && currentMove == old(currentMove) + 1
    {
      var squares := CurrentSquares();
      var nextSquares := Board.HandleClick(squares, XIsNext(), i);
      if nextSquares.Some? {
        var mark := Marked(Mark(Cells.XIsNext(currentMove)));
        assert nextSquares.value == squares[i := mark];
        assert IsMove(squares, nextSquares.value, currentMove);
        HandlePlay(nextSquares.value);
      }
    }
  }

  /**
   * The game played from the start: X takes 0, O takes 4, X takes 1, O takes 5
   * and X takes 2, completing the top row. Jumping back to the start shows the
   * empty board and keeps the history; a move from there drops moves 1 to 5.
   */
  method TopRowScenario()
  {
    var game := new Game();
    game.HandleClick(0);
    game.HandleClick(4);
    game.HandleClick(1);
    game.HandleClick(5);
    assert game.CurrentSquares()[2] == Empty;
    game.HandleClick(2);
    assert game.CurrentSquares() == [Marked(X), Marked(X), Marked(X), Empty, Marked(O), Marked(O), Empty, Empty, Empty];
    assert Complete(game.CurrentSquares(), Lines[0]);
    assert game.CurrentStatus() == Won(X);
    assert |game.history| == 6;

    game.JumpTo(0);
    assert game.CurrentSquares() == EmptyBoard && |game.history| == 6;
    game.HandleClick(8);
    assert |game.history| == 2 && game.currentMove == 1;
  }
}
