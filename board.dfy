/** The Tic-Tac-Toe board: nine cells in row-major order (index 3 * row + column),
    the queries the search uses (available moves, any empty cell, the winning-line
    test for the cell just played), and the mutable game object whose make-move
    operation places a mark and records a winner.
 */
module Board {

  datatype Option<T> = None | Some(value: T)

  /** A cell is either empty or holds one player's mark. */
  datatype Cell<M> = Empty | Mark(m: M)

  /** A board as a value: the nine cells and the recorded winner. */
  datatype Position<M> = Position(cells: seq<Cell<M>>, winner: Option<M>)

  /** The number of cells on a 3x3 board. */
  const Size: int := 9

  // ---------------------------------------------------------------------------
  // Available moves and empty squares
  // ---------------------------------------------------------------------------

  /** The indices j >= i whose cell is empty, in ascending order. */
  function MovesFrom<M(==)>(cells: seq<Cell<M>>, i: nat): (r: seq<int>)
    requires i <= |cells|
    ensures forall k :: 0 <= k < |r| ==> i <= r[k] < |cells| && cells[r[k]] == Empty
    decreases |cells| - i
  {
    if i == |cells| then []
    else if cells[i] == Empty then [i] + MovesFrom(cells, i + 1)
    else MovesFrom(cells, i + 1)
  }

  /** MovesFrom lists every empty index from i on, strictly ascending. */
  lemma {:induction false} MovesFromExact<M>(cells: seq<Cell<M>>, i: nat)
    requires i <= |cells|
    ensures forall j :: i <= j < |cells| && cells[j] == Empty ==> j in MovesFrom(cells, i)
    ensures forall a, b :: 0 <= a < b < |MovesFrom(cells, i)| ==> MovesFrom(cells, i)[a] < MovesFrom(cells, i)[b]
    decreases |cells| - i
  {
    if i < |cells| {
      MovesFromExact(cells, i + 1);
    }
  }

  /** The legal moves: empty cells, in ascending index order. */
  function AvailableMoves<M(==)>(cells: seq<Cell<M>>): (r: seq<int>)
    ensures forall k :: 0 <= k < |r| ==> 0 <= r[k] < |cells| && cells[r[k]] == Empty
  {
    MovesFrom(cells, 0)
  }

  /** The available moves are exactly the empty cells, each in range, strictly
      ascending. */
  lemma AvailableMovesExact<M>(cells: seq<Cell<M>>)
    ensures forall k :: 0 <= k < |AvailableMoves(cells)| ==> 0 <= AvailableMoves(cells)[k] < |cells| && cells[AvailableMoves(cells)[k]] == Empty
    ensures forall j :: 0 <= j < |cells| && cells[j] == Empty ==> j in AvailableMoves(cells)
    ensures forall a, b :: 0 <= a < b < |AvailableMoves(cells)| ==> AvailableMoves(cells)[a] < AvailableMoves(cells)[b]
  {
    MovesFromExact(cells, 0);
  }

  /** Whether some cell is still empty. */
  function EmptySquares<M(==)>(cells: seq<Cell<M>>): (r: bool)
    ensures r <==> AvailableMoves(cells) != []
    ensures r <==> exists j :: 0 <= j < |cells| && cells[j] == Empty
  {
    AvailableMovesExact(cells);
    var moves := AvailableMoves(cells);
    assert moves != [] ==> cells[moves[0]] == Empty;
    Empty in cells
  }

  // ---------------------------------------------------------------------------
  // The winning-line test
  // ---------------------------------------------------------------------------

  /** Cells a, b and c all hold `letter`. */
  predicate Three<M(==)>(cells: seq<Cell<M>>, a: nat, b: nat, c: nat, letter: M)
    requires a < |cells| && b < |cells| && c < |cells|
  {
    cells[a] == Mark(letter) && cells[b] == Mark(letter) && cells[c] == Mark(letter)
  }

  /** The test made after playing `square`: all three cells of its row, all three
      of its column, and, for an even square, all three of either diagonal hold
      `letter`. The test never reports a line that is not one of the eight. */
  predicate Winner<M(==)>(cells: seq<Cell<M>>, square: int, letter: M)
    requires |cells| == Size && 0 <= square < Size
    ensures Winner(cells, square, letter) ==> HasLine(cells, letter)
  {
    var rowInd := square / 3;
    var colInd := square % 3;
    assert rowInd * 3 in {0, 3, 6} && colInd in {0, 1, 2};
    || Three(cells, rowInd * 3, rowInd * 3 + 1, rowInd * 3 + 2, letter)
    || Three(cells, colInd, colInd + 3, colInd + 6, letter)
    || (square % 2 == 0 && (Three(cells, 0, 4, 8, letter) || Three(cells, 2, 4, 6, letter)))
  }

  /** Reference definition: one of the eight lines of the grid (three rows, three
      columns, two diagonals) is full of `letter`. */
  predicate HasLine<M(==)>(cells: seq<Cell<M>>, letter: M)
    requires |cells| == Size
  {
    || Three(cells, 0, 1, 2, letter) || Three(cells, 3, 4, 5, letter) || Three(cells, 6, 7, 8, letter)
    || Three(cells, 0, 3, 6, letter) || Three(cells, 1, 4, 7, letter) || Three(cells, 2, 5, 8, letter)
    || Three(cells, 0, 4, 8, letter) || Three(cells, 2, 4, 6, letter)
  }

  /** Placing a mark on an empty cell leaves every existing line in place. */
  lemma LinesSurvivePlacement<M>(cells: seq<Cell<M>>, square: int, letter: M, m: M)
    requires |cells| == Size && 0 <= square < Size && cells[square] == Empty
    requires HasLine(cells, m)
    ensures HasLine(cells[square := Mark(letter)], m)
  {
  }

  /** Placing `letter` creates no line of any other mark. */
  lemma NoLineForOthers<M>(cells: seq<Cell<M>>, square: int, letter: M, m: M)
    requires |cells| == Size && 0 <= square < Size
    requires m != letter && !HasLine(cells, m)
    ensures !HasLine(cells[square := Mark(letter)], m)
  {
  }

  /** Checking only the lines the source checks for the square just played is
      enough: when `letter` had no line before the placement, the test answers
      exactly whether it has one afterwards. */
  lemma WinnerComplete<M>(cells: seq<Cell<M>>, square: int, letter: M)
    requires |cells| == Size && 0 <= square < Size
    requires !HasLine(cells, letter)
    ensures var after := cells[square := Mark(letter)];
      Winner(after, square, letter) <==> HasLine(after, letter)
  {
    var after := cells[square := Mark(letter)];
    assert square / 3 * 3 + square % 3 == square;
    assert square % 2 == 0 <==> square in {0, 2, 4, 6, 8};
  }

  // ---------------------------------------------------------------------------
  // Making a move, as a value
  // ---------------------------------------------------------------------------

  /** The position after `letter` is played at `square`: on an empty cell the mark
      is stored and, if the test for that square holds, recorded as the winner;
      on an occupied cell nothing changes. */
  function Play<M(==)>(pos: Position<M>, square: int, letter: M): (r: Position<M>)
    requires |pos.cells| == Size && 0 <= square < Size
    ensures |r.cells| == Size
  {
    if pos.cells[square] == Empty then
      var cells := pos.cells[square := Mark(letter)];
      Position(cells, if Winner(cells, square, letter) then Some(letter) else pos.winner)
    else
      pos
  }

  /** Every even square tests both diagonals: from square 2, a full diagonal
      {0, 4, 8}, which does not pass through it, is reported as a win. */
  lemma EvenSquareTestsBothDiagonals<M>(cells: seq<Cell<M>>, square: int, letter: M)
    requires |cells| == Size && 0 <= square < Size && square % 2 == 0
    ensures Three(cells, 0, 4, 8, letter) ==> Winner(cells, square, letter)
    ensures Three(cells, 2, 4, 6, letter) ==> Winner(cells, square, letter)
  {
  }

  /** A recorded winner is not final: when the other mark completes a line,
      the record moves to it. Here x holds the top row and o fills the middle
      row by playing square 5. */
  lemma WinnerOverwritten<M>(x: M, o: M)
    requires x != o
    ensures var pos := Position([Mark(x), Mark(x), Mark(x), Mark(o), Mark(o), Empty, Empty, Empty, Empty], Some(x));
      Play(pos, 5, o).winner == Some(o)
  {
    var cells := [Mark(x), Mark(x), Mark(x), Mark(o), Mark(o), Empty, Empty, Empty, Empty];
    var after := cells[5 := Mark(o)];
    assert Three(after, 3, 4, 5, o);
  }

  /** The recorded winner agrees with the board: with no winner recorded no mark
      has a full line, and a recorded winner has one. */
  ghost predicate WinnerConsistent<M(!new)>(pos: Position<M>)
    requires |pos.cells| == Size
  {
    match pos.winner
    case None => forall m :: !HasLine(pos.cells, m)
    case Some(w) => HasLine(pos.cells, w)
  }

  /** The empty board starts consistent. */
  lemma EmptyBoardConsistent<M(!new)>(pos: Position<M>)
    requires pos.cells == seq(Size, _ => Empty) && pos.winner == None
    ensures WinnerConsistent(pos)
  {
  }

  /** Every move keeps the recorded winner consistent with the board. */
  lemma PlayKeepsWinnerConsistent<M(!new)>(pos: Position<M>, square: int, letter: M)
    requires |pos.cells| == Size && 0 <= square < Size
    requires WinnerConsistent(pos)
    ensures WinnerConsistent(Play(pos, square, letter))
  {
    if pos.cells[square] == Empty {
      var after := pos.cells[square := Mark(letter)];
      if !Winner(after, square, letter) {
        match pos.winner
        case None =>
          WinnerComplete(pos.cells, square, letter);
          forall m ensures !HasLine(after, m) {
            if m != letter {
              NoLineForOthers(pos.cells, square, letter, m);
            }
          }
        case Some(w) =>
          LinesSurvivePlacement(pos.cells, square, letter, w);
      }
    }
  }

  // ---------------------------------------------------------------------------
  // The game object
  // ---------------------------------------------------------------------------

  /** The mutable game: the board list and the recorded winner. */
  class TicTacToe<M(==)> {
    var board: seq<Cell<M>>
    var currentWinner: Option<M>

    ghost predicate Valid()
      reads this
    {
      |board| == Size
    }

    /** The current state as a value. */
    function Snapshot(): (r: Position<M>)
      reads this
    {
      Position(board, currentWinner)
    }

    /** A fresh game: nine empty cells and no winner. */
    constructor ()
      ensures Valid()
      ensures forall i :: 0 <= i < Size ==> board[i] == Empty
      ensures currentWinner == None
    {
      board := seq(Size, _ => Empty);
      currentWinner := None;
    }

    /** An independent copy of `other`, as a deep copy gives. */
    constructor Clone(other: TicTacToe<M>)
      requires other.Valid()
      ensures Valid()
      ensures board == other.board && currentWinner == other.currentWinner
    {
      board := other.board;
      currentWinner := other.currentWinner;
    }

    /** Places `letter` at `square` if that cell is empty, recording `letter` as
        the winner when the test for that square then holds; reports whether the
        cell was empty. */
    method MakeMove(square: int, letter: M) returns (ok: bool)
      requires Valid()
      requires 0 <= square < Size
      modifies this
      ensures Valid()
      ensures ok == (old(board[square]) == Empty)
      ensures ok ==> board == old(board)[square := Mark(letter)]
      ensures ok && Winner(board, square, letter) ==> currentWinner == Some(letter)
      ensures ok && !Winner(board, square, letter) ==> currentWinner == old(currentWinner)
      ensures !ok ==> board == old(board) && currentWinner == old(currentWinner)
      ensures Snapshot() == Play(old(Snapshot()), square, letter)
    {
      if board[square] == Empty {
        board := board[square := Mark(letter)];
        if Winner(board, square, letter) {
          currentWinner := Some(letter);
        }
        return true;
      }
      return false;
    }
  }
}
