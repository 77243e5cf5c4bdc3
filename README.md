# Tic-Tac-Toe minimax solver, modelled in Dafny

This project models the core of a Tic-Tac-Toe solver (`Minmax.py`):

- The board is nine cells in row-major order.
- The game object `TicTacToe` answers three queries: which moves are available, whether any square is empty, and whether the square just played completes a line.
- Its make-move operation stores a mark and records the winner.
- Three searches are built on it:
  - exhaustive minimax;
  - minimax with alpha-beta cut-offs;
  - the move-selection policy that keeps the first move with the highest score.

Files:

- `board.dfy` (module `Board`) holds:
  - the cell type `Empty | Mark(m)`, with marks of any type that has equality;
  - the available-moves and empty-squares queries, as functions;
  - the line test `Winner`, and the eight-line reference `HasLine` it is proved against;
  - the position value `Position(cells, winner)`;
  - the class `TicTacToe`. Its fields are the board and the recorded winner. It has a `MakeMove` method and a `Clone` constructor; `Clone` is the deep copy the searches take before each hypothetical move.
- `search.dfy` (module `Search`) holds:
  - the score of a position, defined once as the function `Value`;
  - the three search methods `Minimax`, `MinimaxAB` and `GetBestMove`, which work on game objects.
  - `Minimax` is proved to return `Value`.
  - `MinimaxAB` is proved fail-soft against `Value` for every window `alpha < beta`. Fail-soft means:
    - a result at or below alpha bounds the true score from above;
    - a result at or above beta bounds it from below;
    - a result strictly inside the window is exact.
  - With the window (-inf, +inf), `MinimaxAB` is therefore exact.
  - `GetBestMove` is proved to return the first available move with the highest score, for both settings of the alpha-beta flag.

The infinite sentinels are replaced by -2 and +2, which lie outside every real score. The search methods have no `modifies` clause, so the board they are given is never changed. Each hypothetical move is played on a fresh copy.

Two behaviours of the code are stated as lemmas:

- A recorded winner is not final. `make_move` overwrites it whenever the line test holds for the other mark (`Board.WinnerOverwritten`).
- The diagonal test runs from every even square, including for a diagonal the square is not on (`Board.EvenSquareTestsBothDiagonals`). `Board.WinnerComplete` shows that the test is still exact when the mark had no line before the move.

## Model

| member | source | states |
|---|---|---|
| Board.MovesFrom | Minmax.py:22-23 | every listed index lies in the scanned range and holds an empty cell |
| Board.MovesFromExact | Minmax.py:22-23 | the scan lists every empty index from its start, strictly ascending |
| Board.AvailableMoves | Minmax.py:22-23 | every available move is an index of the board whose cell is empty |
| Board.AvailableMovesExact | Minmax.py:22-23 | the available moves are exactly the empty cells, each in range, strictly ascending |
| Board.EmptySquares | Minmax.py:25-26 | true iff some cell is empty, iff the list of available moves is non-empty |
| Board.Winner | Minmax.py:36-53 | the test of the row, the column and, for an even square, both diagonals is sound: a reported win is one of the eight lines of `HasLine`; `Board.WinnerComplete` adds that it is exact when the mark had no line before the move |
| Board.WinnerComplete | Minmax.py:36-53 | after a mark is placed, when it had no line before, the test for that square holds iff the mark now has a full line |
| Board.EvenSquareTestsBothDiagonals | Minmax.py:47-51 | holds by the definition of `Winner`: from every even square a full diagonal of either kind is reported as a win |
| Board.LinesSurvivePlacement | Minmax.py:29-30 | placing a mark on an empty cell keeps every existing full line |
| Board.NoLineForOthers | Minmax.py:29-30 | placing a mark creates no full line for any other mark |
| Board.Play | Minmax.py:28-34 | a move on a position keeps the board at nine cells |
| Board.WinnerOverwritten | Minmax.py:31-32 | a winning move by the other mark replaces the recorded winner |
| Board.EmptyBoardConsistent | Minmax.py:5-7 | the empty board with no winner recorded has its winner record consistent: no mark has a line |
| Board.PlayKeepsWinnerConsistent | Minmax.py:28-53 | every move keeps the winner record consistent: no winner means no mark has a line, and a recorded winner has one |
| Board.TicTacToe.constructor | Minmax.py:5-7 | a new game has nine empty cells and no winner |
| Board.TicTacToe.Clone | Minmax.py:66 | a copy has the same cells and winner as the original |
| Board.TicTacToe.MakeMove | Minmax.py:28-34 | on an empty cell it stores the mark there, leaves the other cells alone, sets the winner to the mark iff the line test holds (otherwise keeps it) and returns true; on an occupied cell it returns false and changes nothing |
| Search.PlayAll | Minmax.py:65-67 | each hypothetical move leaves a nine-cell board with one empty cell fewer |
| Search.PlayAllAt | Minmax.py:65-67 | the k-th hypothetical position is the k-th square played on a copy |
| Search.Child | Minmax.py:65-67 | a child position has one empty cell fewer, so the recursion terminates |
| Search.ChildIsPlay | Minmax.py:66-67 | a child is the copied board with the k-th available move made by the side to move |
| Search.Value | Minmax.py:55-78 | every score is in {-1, 0, 1} |
| Search.BestOf | Minmax.py:63-78 | once a child has been scored, the running best is a real score and no longer a sentinel |
| Search.ChildValue | Minmax.py:68 | a child's score is in {-1, 0, 1} |
| Search.BestOfBounds | Minmax.py:69 | the running best is at least every child score seen so far for the maximiser (line 69), and at most every one for the minimiser (line 77) |
| Search.BestOfReached | Minmax.py:63-78 | the running best equals the score of one of the children seen so far |
| Search.BestOfStep | Minmax.py:69 | holds by one unfolding of `BestOf`: one more child raises the running best by max for the maximiser (line 69) and lowers it by min for the minimiser (line 77) |
| Search.ValueIsBestChild | Minmax.py:63-78 | a position still in play scores the maximum (maximiser) or minimum (minimiser) of its children's scores, and some child attains it |
| Search.TerminalScores | Minmax.py:56-61 | holds by the definition of `Value`: 1 when player is the recorded winner, else -1 when opponent is, else 0 on a full board, tested in that order |
| Search.FullWindowIsExact | Minmax.py:118 | a fail-soft result for the window (-inf, +inf) is the exact score |
| Search.MaxNodeStep | Minmax.py:94-97 | updating max_eval and alpha with one child result either keeps the fail-soft relation or cuts off with a lower bound at or above beta |
| Search.MinNodeStep | Minmax.py:105-108 | updating min_eval and beta with one child result either keeps the fail-soft relation or cuts off with an upper bound at or below alpha |
| Search.MaxLoopStep | Minmax.py:90-97 | searching one more child of a maximising node keeps the loop invariant, or the cut-off result is fail-soft for the node's score |
| Search.MinLoopStep | Minmax.py:101-108 | searching one more child of a minimising node keeps the loop invariant, or the cut-off result is fail-soft for the node's score |
| Search.MaxLoopDone | Minmax.py:98 | a maximising node that searched every child returns a fail-soft result in {-1, 0, 1} |
| Search.MinLoopDone | Minmax.py:109 | a minimising node that searched every child returns a fail-soft result in {-1, 0, 1} |
| Search.PlayOnCopy | Minmax.py:66-67 | the move is made on a fresh copy, whose state is the parent's position with the move played |
| Search.Minimax | Minmax.py:55-78 | returns exactly the minimax score of the board |
| Search.MinimaxAB | Minmax.py:80-109 | for every window alpha < beta the result is in {-1, 0, 1} and fail-soft for the minimax score; on a terminal board it is exactly 1, -1 or 0 (lines 81-86), whatever the window |
| Search.MaxNodeAB | Minmax.py:88-98 | the maximising branch with its cut-off returns a fail-soft result in {-1, 0, 1} |
| Search.MinNodeAB | Minmax.py:99-109 | the minimising branch with its cut-off returns a fail-soft result in {-1, 0, 1} |
| Search.SearchesAgree | Minmax.py:117-120 | plain minimax and alpha-beta with the window (-inf, +inf) give the same score, which is the minimax score |
| Search.FirstBestUnique | Minmax.py:121-123 | at most one move is the first with the highest score, so the choice is deterministic |
| Search.FirstBestStep | Minmax.py:121-123 | replacing the kept move only on a strict improvement keeps it the first with the highest score so far |
| Search.GetBestMove | Minmax.py:111-124 | returns None iff no move is available; otherwise it returns the first available move with the highest score, whatever the alpha-beta flag |

## Left out

- `print_board` and `print_board_nums` (Minmax.py:9-20) are left out: they only print to the console.
- `compare_performance` (Minmax.py:126-147) is left out: it measures wall-clock time and prints float averages.
- `play_game` and the script entry point (Minmax.py:149-197) are left out: they are an interactive input loop that prints.
- The `depth` argument of `minimax_ab` is dropped. It is passed down the recursion but never read.
- Float infinity is not modelled. The sentinels -inf and +inf become the integers -2 and +2; every real score is -1, 0 or 1, so comparisons with them come out the same.
- Board.TicTacToe.MakeMove: requires 0 <= square < 9. Python's negative indexing and the IndexError raised for other indices are not modelled; every caller passes an available move.
- Search.MinimaxAB: requires alpha < beta. Every call in the source meets this: the top call uses (-inf, +inf); a recursive call is made only after the cut-off test has failed, so alpha < beta still holds.
- `minimax_ab` is split into `MinimaxAB` (the terminal tests) and its two branches `MaxNodeAB` and `MinNodeAB`, which are mutually recursive with it. The behaviour is unchanged.
- The perfect-play outcome from the empty board (a draw) is not proved, nor is which move the policy picks there. Both need an evaluation of the full game tree, which is too large for the prover.
- Marks are any type with equality. The model does not require player != opponent: when the two are equal, the test for player wins, as in the source.
