/**
 * The values a tic-tac-toe board is made of: the two players' marks, the
 * cells that hold them, and the nine-cell board laid out in row-major order.
 */
module Cells {

  /** The two marks, "X" and "O". */
  datatype Player = X | O

  /** A square: empty (the source's `null`) or holding one player's mark. */
  datatype Cell = Empty | Marked(player: Player)

  datatype Option<T> = None | Some(value: T)

  /** The board every game starts from: nine empty squares. */
  const EmptyBoard: seq<Cell> := [Empty, Empty, Empty, Empty, Empty, Empty, Empty, Empty, Empty]

  /**
   * Reading square `i` of a board. An index past the end reads as empty,
   * as an out-of-range array read in the source yields a falsy value.
   */
  function At(squares: seq<Cell>, i: nat): Cell
  {
    if i < |squares| then squares[i] else Empty
  }

  /** Whose turn it is after `move` moves: X on even moves. */
  function XIsNext(move: nat): bool
  {
    move % 2 == 0
  }

  /** The mark placed by the player whose turn it is. */
  function Mark(xIsNext: bool): Player
  {
    if xIsNext then X else O
  }

  /** Every square of the board holds a mark. */
  ghost predicate Full(squares: seq<Cell>)
  {
    forall i :: 0 <= i < |squares| ==> squares[i] != Empty
  }

  /** How many squares of the board hold `c`. */
  function Count(squares: seq<Cell>, c: Cell): nat
  {
    if squares == [] then 0
    else (if squares[0] == c then 1 else 0) + Count(squares[1..], c)
  }

  /** The three kinds of square always add up to the size of the board. */
  lemma {:induction false} CountTotal(squares: seq<Cell>)
    ensures Count(squares, Empty) + Count(squares, Marked(X)) + Count(squares, Marked(O)) == |squares|
  {
    if squares != [] {
      CountTotal(squares[1..]);
      match squares[0]
      case Empty =>
      case Marked(X) =>
      case Marked(O) =>
    }
  }

  /** A board has no empty square exactly when its count of empty squares is zero. */
  lemma {:induction false} FullIffNoEmpty(squares: seq<Cell>)
    ensures Full(squares) <==> Count(squares, Empty) == 0
  {
    if squares != [] {
      FullIffNoEmpty(squares[1..]);
      if Full(squares) {
        assert Full(squares[1..]) by {
          forall i | 0 <= i < |squares[1..]| ensures squares[1..][i] != Empty {
            assert squares[1..][i] == squares[i + 1];
          }
        }
      }
      if Count(squares, Empty) == 0 {
        forall i | 0 <= i < |squares| ensures squares[i] != Empty {
          if i > 0 {
            assert squares[i] == squares[1..][i - 1];
          }
        }
      }
    }
  }

  /**
   * Placing mark `c` on an empty square adds one to the count of `c`,
   * takes one from the count of empty squares and leaves every other count alone.
   */
  lemma {:induction false} CountPlace(squares: seq<Cell>, i: nat, c: Cell, d: Cell)
    requires i < |squares| && squares[i] == Empty && c != Empty
    ensures Count(squares[i := c], c) == Count(squares, c) + 1
    ensures Count(squares[i := c], Empty) + 1 == Count(squares, Empty)
    ensures d != c && d != Empty ==> Count(squares[i := c], d) == Count(squares, d)
  {
    var placed := squares[i := c];
    if i == 0 {
      assert placed[1..] == squares[1..];
    } else {
      assert placed[1..] == squares[1..][i - 1 := c];
      CountPlace(squares[1..], i - 1, c, d);
    }
  }

  /** A board of empty squares holds as many empty squares as it is long, and no marks. */
  lemma {:induction false} CountAllEmpty(squares: seq<Cell>, c: Cell)
    requires forall i :: 0 <= i < |squares| ==> squares[i] == Empty
    ensures Count(squares, c) == if c == Empty then |squares| else 0
  {
    if squares != [] {
      CountAllEmpty(squares[1..], c);
    }
  }

  /**
   * The board index of the square at `row`, `col`: it lies on the board and
   * gives back its row and column, so the mapping is a bijection onto 0..8.
   */
  function SquareIndex(row: nat, col: nat): (square: nat)
    requires row < 3 && col < 3
    ensures square < 9 && square / 3 == row && square % 3 == col
  {
    col + row * 3
  }

  /** Every board index is the index of its own row and column. */
  lemma SquareIndexOnto(square: nat)
    requires square < 9
    ensures SquareIndex(square / 3, square % 3) == square
  {
  }
}
