/**
 * The win detector: the eight lines of the board, scanned in a fixed order,
 * and the first of them whose three squares hold the same mark.
 */
module WinDetector {
  import opened Cells

  /** Three board indices that make a winning line. */
  datatype Line = Line(a: nat, b: nat, c: nat)

  /** The lines in the order the detector checks them: rows, then columns, then diagonals. */
  const Lines: seq<Line> := [
    Line(0, 1, 2), Line(3, 4, 5), Line(6, 7, 8),
    Line(0, 3, 6), Line(1, 4, 7), Line(2, 5, 8),
    Line(0, 4, 8), Line(2, 4, 6)
  ]

  /** What the detector reports: no winner, or the winning mark with the line it fills. */
  datatype Outcome = NoWinner | Win(mark: Player, line: Line)

  /** The detector's test of one line: its first square is marked and the other two equal it. */
  predicate Complete(squares: seq<Cell>, line: Line)
  {
    At(squares, line.a) != Empty
    && At(squares, line.a) == At(squares, line.b)
    && At(squares, line.a) == At(squares, line.c)
  }

  /** All three squares of `line` hold `mark`. */
  ghost predicate Wins(squares: seq<Cell>, line: Line, mark: Player)
  {
    At(squares, line.a) == Marked(mark)
    && At(squares, line.b) == Marked(mark)
    && At(squares, line.c) == Marked(mark)
  }

  /** Line number `k` is complete and no line before it in the table is. */
  ghost predicate IsFirstWin(squares: seq<Cell>, k: nat)
  {
    k < |Lines|
    && Complete(squares, Lines[k])
    && forall j :: 0 <= j < k ==> !Complete(squares, Lines[j])
  }

  /** No line of the table is complete. */
  ghost predicate NoCompleteLine(squares: seq<Cell>)
  {
    forall j :: 0 <= j < |Lines| ==> !Complete(squares, Lines[j])
  }

  /** The outcome of scanning the table from line number `k` on. */
  function WinnerFrom(squares: seq<Cell>, k: nat): Outcome
    requires k <= |Lines|
    decreases |Lines| - k
  {
    if k == |Lines| then NoWinner
    else if Complete(squares, Lines[k]) then Win(At(squares, Lines[k].a).player, Lines[k])
    else WinnerFrom(squares, k + 1)
  }

  /** The outcome of scanning the whole table. */
  function FirstWinner(squares: seq<Cell>): Outcome
  {
    WinnerFrom(squares, 0)
  }

  /**
   * Scanning from line `k` on finds no winner exactly when no line from `k` on
   * is complete, and otherwise reports the first complete line from `k` on,
   * with the mark that fills it.
   */
  lemma {:induction false} WinnerFromCorrect(squares: seq<Cell>, k: nat)
    requires k <= |Lines|
    ensures WinnerFrom(squares, k) == NoWinner
            <==> forall j :: k <= j < |Lines| ==> !Complete(squares, Lines[j])
    ensures WinnerFrom(squares, k).Win? ==>
              exists j :: k <= j < |Lines|
                && (forall i :: k <= i < j ==> !Complete(squares, Lines[i]))
                && WinnerFrom(squares, k).line == Lines[j]
                && Wins(squares, Lines[j], WinnerFrom(squares, k).mark)
    decreases |Lines| - k
  {
    if k < |Lines| && !Complete(squares, Lines[k]) {
      WinnerFromCorrect(squares, k + 1);
      if WinnerFrom(squares, k).Win? {
        var j :| k + 1 <= j < |Lines|
                && (forall i :: k + 1 <= i < j ==> !Complete(squares, Lines[i]))
                && WinnerFrom(squares, k).line == Lines[j]
                && Wins(squares, Lines[j], WinnerFrom(squares, k).mark);
        assert forall i :: k <= i < j ==> !Complete(squares, Lines[i]);
      }
    }
  }

  /**
   * The detector reports no winner exactly when no line is complete; when it
   * reports a winner, the line is the first complete one in table order and
   * all three of its squares hold the reported mark.
   */
  lemma FirstWinnerCorrect(squares: seq<Cell>)
    ensures FirstWinner(squares) == NoWinner <==> NoCompleteLine(squares)
    ensures FirstWinner(squares).Win? ==>
              exists k: nat :: IsFirstWin(squares, k)
                && FirstWinner(squares).line == Lines[k]
                && Wins(squares, Lines[k], FirstWinner(squares).mark)
  {
    WinnerFromCorrect(squares, 0);
  }

  /** Whenever some line is filled with one mark, the detector reports a winner. */
  lemma WinsMeansWinner(squares: seq<Cell>, k: nat, mark: Player)
    requires k < |Lines| && Wins(squares, Lines[k], mark)
    ensures FirstWinner(squares).Win?
  {
    FirstWinnerCorrect(squares);
  }

  /**
   * The detector as the source runs it: a loop over the table that stops at the
   * first complete line. It reports that line and its mark, or no winner when
   * no line is complete.
   */
  method CalculateWinner(squares: seq<Cell>) returns (winner: Outcome)
    ensures winner == FirstWinner(squares)
    ensures winner == NoWinner <==> NoCompleteLine(squares)
    ensures winner.Win? ==>
              exists k: nat :: IsFirstWin(squares, k)
                && winner.line == Lines[k]
                && Wins(squares, Lines[k], winner.mark)
  {
    var i := 0;
    while i < |Lines|
      invariant i <= |Lines|
      invariant forall j :: 0 <= j < i ==> !Complete(squares, Lines[j])
      invariant WinnerFrom(squares, i) == FirstWinner(squares)
    {
      var line := Lines[i];
      var notNull := At(squares, line.a);
      var pairB := At(squares, line.a) == At(squares, line.b);
      var pairC := At(squares, line.a) == At(squares, line.c);
      if notNull != Empty && pairB && pairC {
        assert IsFirstWin(squares, i);
        return Win(notNull.player, line);
      }
      i := i + 1;
    }
    return NoWinner;
  }
}
