/** The search engine: plain minimax, minimax with alpha-beta cut-offs, and the
    move-selection policy built on them. The score of a position is defined once,
    as the function Value over board values; the three search methods work on
    game objects, copying the board for every hypothetical move, and are proved
    against Value.
 */
module Search {
  import opened Board

  /** Stand-ins for the infinite sentinels: outside every real score. */
  const NegInf: int := -2
  const PosInf: int := 2

  function Max(a: int, b: int): (r: int) { if a >= b then a else b }
  function Min(a: int, b: int): (r: int) { if a <= b then a else b }

  /** The number of empty cells: each move fills one, so the search terminates. */
  function EmptyCount<M(==)>(cells: seq<Cell<M>>): (r: nat) {
    multiset(cells)[Empty]
  }

  /** The positions reached by playing `letter` on each of `squares` in turn on
      a copy of `pos`. */
  function PlayAll<M(==)>(pos: Position<M>, squares: seq<int>, letter: M): (r: seq<Position<M>>)
    requires |pos.cells| == Size
    requires forall k :: 0 <= k < |squares| ==> 0 <= squares[k] < Size && pos.cells[squares[k]] == Empty
    ensures |r| == |squares|
    ensures forall k :: 0 <= k < |r| ==> |r[k].cells| == Size && EmptyCount(r[k].cells) == EmptyCount(pos.cells) - 1
  {
    if squares == [] then []
    else [Play(pos, squares[0], letter)] + PlayAll(pos, squares[1..], letter)
  }

  /** Entry k of PlayAll is the move on squares[k]. */
  lemma {:induction false} PlayAllAt<M>(pos: Position<M>, squares: seq<int>, letter: M, k: int)
    requires |pos.cells| == Size
    requires forall k :: 0 <= k < |squares| ==> 0 <= squares[k] < Size && pos.cells[squares[k]] == Empty
    requires 0 <= k < |squares|
    ensures PlayAll(pos, squares, letter)[k] == Play(pos, squares[k], letter)
  {
    if k > 0 {
      PlayAllAt(pos, squares[1..], letter, k - 1);
    }
  }

  /** The k-th child of `pos`: its k-th available move played by the side to
      move. Every child has one empty cell fewer. */
  function Child<M(==)>(pos: Position<M>, k: int, isMaximizing: bool, player: M, opponent: M): (r: Position<M>)
    requires |pos.cells| == Size && 0 <= k < |AvailableMoves(pos.cells)|
    ensures |r.cells| == Size
    ensures EmptyCount(r.cells) == EmptyCount(pos.cells) - 1
  {
    PlayAll(pos, AvailableMoves(pos.cells), if isMaximizing then player else opponent)[k]
  }

  /** A child is the board copy with that move made. */
  lemma ChildIsPlay<M>(pos: Position<M>, k: int, isMaximizing: bool, player: M, opponent: M)
    requires |pos.cells| == Size && 0 <= k < |AvailableMoves(pos.cells)|
    ensures Child(pos, k, isMaximizing, player, opponent)
      == Play(pos, AvailableMoves(pos.cells)[k], if isMaximizing then player else opponent)
  {
    PlayAllAt(pos, AvailableMoves(pos.cells), if isMaximizing then player else opponent, k);
  }

  /** The score a position has for `player` against `opponent`: 1 once `player`
      is recorded as the winner, -1 once `opponent` is, 0 on a full board, and
      otherwise the best child score for the side to move. */
  function Value<M(==)>(pos: Position<M>, isMaximizing: bool, player: M, opponent: M): (r: int)
    requires |pos.cells| == Size
    ensures -1 <= r <= 1
    decreases EmptyCount(pos.cells), 2, 0
  {
    if pos.winner == Some(player) then 1
    else if pos.winner == Some(opponent) then -1
    else if !EmptySquares(pos.cells) then 0
    else BestOf(pos, |AvailableMoves(pos.cells)|, isMaximizing, player, opponent)
  }

  /** The running best over the first n children, starting from the sentinel
      of the side to move. */
  function BestOf<M(==)>(pos: Position<M>, n: nat, isMaximizing: bool, player: M, opponent: M): (r: int)
    requires |pos.cells| == Size && n <= |AvailableMoves(pos.cells)|
    ensures n > 0 ==> -1 <= r <= 1
    decreases EmptyCount(pos.cells), 1, n
  {
    if n == 0 then
      if isMaximizing then NegInf else PosInf
    else
      var score := ChildValue(pos, n - 1, isMaximizing, player, opponent);
      var best := BestOf(pos, n - 1, isMaximizing, player, opponent);
      if isMaximizing then Max(score, best) else Min(score, best)
  }

  /** The score of the k-th child, the other side to move. */
  function ChildValue<M(==)>(pos: Position<M>, k: int, isMaximizing: bool, player: M, opponent: M): (r: int)
    requires |pos.cells| == Size && 0 <= k < |AvailableMoves(pos.cells)|
    ensures -1 <= r <= 1
    decreases EmptyCount(pos.cells), 0, 0
  {
    Value(Child(pos, k, isMaximizing, player, opponent), !isMaximizing, player, opponent)
  }

  /** A position where the search stops: someone has won or the board is full. */
  predicate Terminal<M(==)>(pos: Position<M>, player: M, opponent: M)
    requires |pos.cells| == Size
  {
    pos.winner == Some(player) || pos.winner == Some(opponent) || !EmptySquares(pos.cells)
  }

  /** The running best over n children bounds each of them: from above for the
      maximiser, from below for the minimiser. */
  lemma {:induction false} BestOfBounds<M>(pos: Position<M>, n: nat, isMaximizing: bool, player: M, opponent: M)
    requires |pos.cells| == Size && 0 < n <= |AvailableMoves(pos.cells)|
    ensures isMaximizing ==> forall k :: 0 <= k < n ==> ChildValue(pos, k, isMaximizing, player, opponent) <= BestOf(pos, n, isMaximizing, player, opponent)
    ensures !isMaximizing ==> forall k :: 0 <= k < n ==> BestOf(pos, n, isMaximizing, player, opponent) <= ChildValue(pos, k, isMaximizing, player, opponent)
  {
    var best := BestOf(pos, n, isMaximizing, player, opponent);
    var last := ChildValue(pos, n - 1, isMaximizing, player, opponent);
    if n > 1 {
      BestOfBounds(pos, n - 1, isMaximizing, player, opponent);
      var prev := BestOf(pos, n - 1, isMaximizing, player, opponent);
      if isMaximizing {
        assert best == Max(last, prev);
      } else {
        assert best == Min(last, prev);
      }
    } else {
      assert best == last;
    }
  }

  /** The running best over n children is the score of one of them. */
  lemma {:induction false} BestOfReached<M>(pos: Position<M>, n: nat, isMaximizing: bool, player: M, opponent: M)
    requires |pos.cells| == Size && 0 < n <= |AvailableMoves(pos.cells)|
    ensures exists k :: 0 <= k < n && ChildValue(pos, k, isMaximizing, player, opponent) == BestOf(pos, n, isMaximizing, player, opponent)
  {
    if n > 1 {
      BestOfReached(pos, n - 1, isMaximizing, player, opponent);
      var k :| 0 <= k < n - 1 && ChildValue(pos, k, isMaximizing, player, opponent) == BestOf(pos, n - 1, isMaximizing, player, opponent);
      var last := ChildValue(pos, n - 1, isMaximizing, player, opponent);
      if BestOf(pos, n, isMaximizing, player, opponent) == last {
        assert 0 <= n - 1 < n;
      } else {
        assert 0 <= k < n;
      }
    } else {
      assert ChildValue(pos, 0, isMaximizing, player, opponent) == BestOf(pos, n, isMaximizing, player, opponent);
    }
  }

  /** Independent of the order in which moves are tried, the score of a
      position still in play is the maximum (for the maximiser) or the minimum
      (for the minimiser) of its children's scores. */
  lemma ValueIsBestChild<M>(pos: Position<M>, isMaximizing: bool, player: M, opponent: M)
    requires |pos.cells| == Size && !Terminal(pos, player, opponent)
    ensures isMaximizing ==> forall k :: 0 <= k < |AvailableMoves(pos.cells)| ==> ChildValue(pos, k, isMaximizing, player, opponent) <= Value(pos, isMaximizing, player, opponent)
    ensures !isMaximizing ==> forall k :: 0 <= k < |AvailableMoves(pos.cells)| ==> Value(pos, isMaximizing, player, opponent) <= ChildValue(pos, k, isMaximizing, player, opponent)
    ensures exists k :: 0 <= k < |AvailableMoves(pos.cells)| && ChildValue(pos, k, isMaximizing, player, opponent) == Value(pos, isMaximizing, player, opponent)
  {
    BestOfBounds(pos, |AvailableMoves(pos.cells)|, isMaximizing, player, opponent);
    BestOfReached(pos, |AvailableMoves(pos.cells)|, isMaximizing, player, opponent);
  }

  /** The terminal scores, checked in this order before any move is tried. */
  lemma TerminalScores<M>(pos: Position<M>, isMaximizing: bool, player: M, opponent: M)
    requires |pos.cells| == Size
    ensures pos.winner == Some(player) ==> Value(pos, isMaximizing, player, opponent) == 1
    ensures pos.winner != Some(player) && pos.winner == Some(opponent) ==> Value(pos, isMaximizing, player, opponent) == -1
    ensures pos.winner != Some(player) && pos.winner != Some(opponent) && !EmptySquares(pos.cells) ==>
      Value(pos, isMaximizing, player, opponent) == 0
  {
  }

  /** The fail-soft window property of alpha-beta search: a result at or below
      the window bounds the true score from above, one at or above it bounds
      the true score from below, and one strictly inside it is the true score. */
  predicate FailSoft(r: int, v: int, alpha: int, beta: int) {
    && (r <= alpha ==> v <= r)
    && (alpha < r < beta ==> v == r)
    && (beta <= r ==> r <= v)
  }

  /** With the window (-inf, +inf) alpha-beta gives exactly the minimax score. */
  lemma FullWindowIsExact(r: int, v: int)
    requires -1 <= v <= 1
    requires FailSoft(r, v, NegInf, PosInf)
    ensures r == v
  {
  }

  /** One more child in the running best. */
  lemma BestOfStep<M>(pos: Position<M>, i: nat, isMaximizing: bool, player: M, opponent: M)
    requires |pos.cells| == Size && i < |AvailableMoves(pos.cells)|
    ensures BestOf(pos, i + 1, isMaximizing, player, opponent) ==
      if isMaximizing then Max(ChildValue(pos, i, isMaximizing, player, opponent), BestOf(pos, i, isMaximizing, player, opponent))
      else Min(ChildValue(pos, i, isMaximizing, player, opponent), BestOf(pos, i, isMaximizing, player, opponent))
  {
  }

  /** One child of a maximising alpha-beta node, as plain numbers: how max_eval
      (m), alpha (a) and the true running best move together, given the
      child's fail-soft result e for its true score cv on the window (a, beta). */
  lemma MaxNodeStep(alpha: int, beta: int, first: bool, a: int, m: int, best: int, e: int, cv: int)
    requires a == if first then alpha else Max(alpha, m)
    requires a < beta
    requires first ==> m == NegInf && best == NegInf
    requires !first ==> -1 <= m <= 1
    requires m <= alpha ==> best <= m
    requires alpha < m ==> best == m
    requires -1 <= e <= 1 && -1 <= cv <= 1
    requires FailSoft(e, cv, a, beta)
    ensures Max(a, e) == Max(alpha, Max(m, e)) && -1 <= Max(m, e) <= 1
    ensures Max(a, e) < beta ==> (Max(m, e) <= alpha ==> Max(cv, best) <= Max(m, e))
    ensures Max(a, e) < beta ==> (alpha < Max(m, e) ==> Max(cv, best) == Max(m, e))
    ensures beta <= Max(a, e) ==> beta <= Max(m, e) <= cv
  {
  }

  /** One child of a minimising alpha-beta node, symmetric to MaxNodeStep. */
  lemma MinNodeStep(alpha: int, beta: int, first: bool, b: int, m: int, best: int, e: int, cv: int)
    requires b == if first then beta else Min(beta, m)
    requires alpha < b
    requires first ==> m == PosInf && best == PosInf
    requires !first ==> -1 <= m <= 1
    requires beta <= m ==> m <= best
    requires m < beta ==> best == m
    requires -1 <= e <= 1 && -1 <= cv <= 1
    requires FailSoft(e, cv, alpha, b)
    ensures Min(b, e) == Min(beta, Min(m, e)) && -1 <= Min(m, e) <= 1
    ensures alpha < Min(b, e) ==> (beta <= Min(m, e) ==> Min(m, e) <= Min(cv, best))
    ensures alpha < Min(b, e) ==> (Min(m, e) < beta ==> Min(cv, best) == Min(m, e))
    ensures Min(b, e) <= alpha ==> cv <= Min(m, e) <= alpha
  {
  }

  /** After the first i children of a maximising node, with no cut-off yet:
      alpha has been raised by every result and is still below beta, and
      max_eval stands in the fail-soft relation to the true running best. */
  ghost predicate MaxLoopInv<M>(pos: Position<M>, i: nat, alpha: int, beta: int, a: int, maxEval: int, player: M, opponent: M)
    requires |pos.cells| == Size && i <= |AvailableMoves(pos.cells)|
  {
    && a == (if i == 0 then alpha else Max(alpha, maxEval))
    && a < beta
    && (i == 0 ==> maxEval == NegInf)
    && (i > 0 ==> -1 <= maxEval <= 1)
    && (maxEval <= alpha ==> BestOf(pos, i, true, player, opponent) <= maxEval)
    && (alpha < maxEval ==> BestOf(pos, i, true, player, opponent) == maxEval)
  }

  /** The minimising counterpart of MaxLoopInv. */
  ghost predicate MinLoopInv<M>(pos: Position<M>, i: nat, alpha: int, beta: int, b: int, minEval: int, player: M, opponent: M)
    requires |pos.cells| == Size && i <= |AvailableMoves(pos.cells)|
  {
    && b == (if i == 0 then beta else Min(beta, minEval))
    && alpha < b
    && (i == 0 ==> minEval == PosInf)
    && (i > 0 ==> -1 <= minEval <= 1)
    && (beta <= minEval ==> minEval <= BestOf(pos, i, false, player, opponent))
    && (minEval < beta ==> BestOf(pos, i, false, player, opponent) == minEval)
  }

  /** Searching child i of a maximising node either keeps MaxLoopInv or cuts
      off with a result that is fail-soft for the node's true score. */
  lemma MaxLoopStep<M>(pos: Position<M>, i: nat, alpha: int, beta: int, a: int, maxEval: int, e: int, player: M, opponent: M)
    requires |pos.cells| == Size && !Terminal(pos, player, opponent) && i < |AvailableMoves(pos.cells)|
    requires MaxLoopInv(pos, i, alpha, beta, a, maxEval, player, opponent)
    requires -1 <= e <= 1 && FailSoft(e, ChildValue(pos, i, true, player, opponent), a, beta)
    ensures Max(a, e) < beta ==> MaxLoopInv(pos, i + 1, alpha, beta, Max(a, e), Max(maxEval, e), player, opponent)
    ensures beta <= Max(a, e) ==>
      -1 <= Max(maxEval, e) <= 1 && FailSoft(Max(maxEval, e), Value(pos, true, player, opponent), alpha, beta)
  {
    var cv := ChildValue(pos, i, true, player, opponent);
    BestOfStep(pos, i, true, player, opponent);
    MaxNodeStep(alpha, beta, i == 0, a, maxEval, BestOf(pos, i, true, player, opponent), e, cv);
    if beta <= Max(a, e) {
      ValueIsBestChild(pos, true, player, opponent);
      assert cv <= Value(pos, true, player, opponent);
    }
  }

  /** Searching child i of a minimising node, symmetric to MaxLoopStep. */
  lemma MinLoopStep<M>(pos: Position<M>, i: nat, alpha: int, beta: int, b: int, minEval: int, e: int, player: M, opponent: M)
    requires |pos.cells| == Size && !Terminal(pos, player, opponent) && i < |AvailableMoves(pos.cells)|
    requires MinLoopInv(pos, i, alpha, beta, b, minEval, player, opponent)
    requires -1 <= e <= 1 && FailSoft(e, ChildValue(pos, i, false, player, opponent), alpha, b)
    ensures alpha < Min(b, e) ==> MinLoopInv(pos, i + 1, alpha, beta, Min(b, e), Min(minEval, e), player, opponent)
    ensures Min(b, e) <= alpha ==>
      -1 <= Min(minEval, e) <= 1 && FailSoft(Min(minEval, e), Value(pos, false, player, opponent), alpha, beta)
  {
    var cv := ChildValue(pos, i, false, player, opponent);
    BestOfStep(pos, i, false, player, opponent);
    MinNodeStep(alpha, beta, i == 0, b, minEval, BestOf(pos, i, false, player, opponent), e, cv);
    if Min(b, e) <= alpha {
      ValueIsBestChild(pos, false, player, opponent);
      assert Value(pos, false, player, opponent) <= cv;
    }
  }

  /** A maximising node whose children were all searched without a cut-off
      returns a fail-soft result. */
  lemma MaxLoopDone<M>(pos: Position<M>, alpha: int, beta: int, a: int, maxEval: int, player: M, opponent: M)
    requires |pos.cells| == Size && !Terminal(pos, player, opponent)
    requires MaxLoopInv(pos, |AvailableMoves(pos.cells)|, alpha, beta, a, maxEval, player, opponent)
    ensures -1 <= maxEval <= 1 && FailSoft(maxEval, Value(pos, true, player, opponent), alpha, beta)
  {
  }

  /** The minimising counterpart of MaxLoopDone. */
  lemma MinLoopDone<M>(pos: Position<M>, alpha: int, beta: int, b: int, minEval: int, player: M, opponent: M)
    requires |pos.cells| == Size && !Terminal(pos, player, opponent)
    requires MinLoopInv(pos, |AvailableMoves(pos.cells)|, alpha, beta, b, minEval, player, opponent)
    ensures -1 <= minEval <= 1 && FailSoft(minEval, Value(pos, false, player, opponent), alpha, beta)
  {
  }

  /** A deep copy of `board` with `letter` played at `square`; the parent is
      left as it was. */
  method PlayOnCopy<M(==)>(board: TicTacToe<M>, square: int, letter: M) returns (child: TicTacToe<M>)
    requires board.Valid() && 0 <= square < Size
    ensures fresh(child) && child.Valid()
    ensures child.Snapshot() == Play(board.Snapshot(), square, letter)
  {
    child := new TicTacToe.Clone(board);
    var _ := child.MakeMove(square, letter);
  }

  /** Exhaustive minimax on the game object; the parent board is never changed. */
  method Minimax<M(==)>(board: TicTacToe<M>, isMaximizing: bool, player: M, opponent: M) returns (score: int)
    requires board.Valid()
    ensures score == Value(board.Snapshot(), isMaximizing, player, opponent)
    decreases EmptyCount(board.board)
  {
    if board.currentWinner == Some(player) {
      return 1;
    } else if board.currentWinner == Some(opponent) {
      return -1;
    } else if !EmptySquares(board.board) {
      return 0;
    }
    ghost var pos := board.Snapshot();
    var moves := AvailableMoves(board.board);
    var mark := if isMaximizing then player else opponent;
    var best := if isMaximizing then NegInf else PosInf;
    var i := 0;
    while i < |moves|
      invariant 0 <= i <= |moves|
      invariant best == BestOf(pos, i, isMaximizing, player, opponent)
    {
      var newBoard := PlayOnCopy(board, moves[i], mark);
      ChildIsPlay(pos, i, isMaximizing, player, opponent);
      assert newBoard.Snapshot() == Child(pos, i, isMaximizing, player, opponent);
      var s := Minimax(newBoard, !isMaximizing, player, opponent);
      best := if isMaximizing then Max(s, best) else Min(s, best);
      i := i + 1;
    }
    return best;
  }

  /** Minimax with alpha-beta cut-offs; for every window alpha < beta its result
      stands in the fail-soft relation to the minimax score, and it never returns
      a sentinel. The two branches of the search are MaxNodeAB and MinNodeAB. */
  method MinimaxAB<M(==)>(board: TicTacToe<M>, alpha: int, beta: int, isMaximizing: bool, player: M, opponent: M)
    returns (score: int)
    requires board.Valid()
    requires alpha < beta
    ensures -1 <= score <= 1
    ensures FailSoft(score, Value(board.Snapshot(), isMaximizing, player, opponent), alpha, beta)
    ensures Terminal(board.Snapshot(), player, opponent) ==> score == Value(board.Snapshot(), isMaximizing, player, opponent)
    decreases EmptyCount(board.board), 1
  {
    if board.currentWinner == Some(player) {
      return 1;
    } else if board.currentWinner == Some(opponent) {
      return -1;
    } else if !EmptySquares(board.board) {
      return 0;
    }
    if isMaximizing {
      score := MaxNodeAB(board, alpha, beta, player, opponent);
    } else {
      score := MinNodeAB(board, alpha, beta, player, opponent);
    }
  }

  /** The maximising branch of MinimaxAB on a position still in play: children
      are searched in move order, alpha is raised by each result, and the
      remaining siblings are skipped once beta <= alpha. */
  method MaxNodeAB<M(==)>(board: TicTacToe<M>, alpha: int, beta: int, player: M, opponent: M) returns (score: int)
    requires board.Valid() && !Terminal(board.Snapshot(), player, opponent)
    requires alpha < beta
    ensures -1 <= score <= 1
    ensures FailSoft(score, Value(board.Snapshot(), true, player, opponent), alpha, beta)
    decreases EmptyCount(board.board), 0
  {
    ghost var pos := board.Snapshot();
    var moves := AvailableMoves(board.board);
    var a := alpha;
    var maxEval := NegInf;
    var i := 0;
    while i < |moves|
      invariant 0 <= i <= |moves|
      invariant MaxLoopInv(pos, i, alpha, beta, a, maxEval, player, opponent)
    {
      var newBoard := PlayOnCopy(board, moves[i], player);
      ChildIsPlay(pos, i, true, player, opponent);
      assert newBoard.Snapshot() == Child(pos, i, true, player, opponent);
      var eval := MinimaxAB(newBoard, a, beta, false, player, opponent);
      MaxLoopStep(pos, i, alpha, beta, a, maxEval, eval, player, opponent);
      maxEval := Max(maxEval, eval);
      a := Max(a, eval);
      if beta <= a {
        break;
      }
      i := i + 1;
    }
    if i == |moves| {
      MaxLoopDone(pos, alpha, beta, a, maxEval, player, opponent);
    }
    score := maxEval;
  }

  /** The minimising branch of MinimaxAB, symmetric to MaxNodeAB: beta is
      lowered by each result. */
  method MinNodeAB<M(==)>(board: TicTacToe<M>, alpha: int, beta: int, player: M, opponent: M) returns (score: int)
    requires board.Valid() && !Terminal(board.Snapshot(), player, opponent)
    requires alpha < beta
    ensures -1 <= score <= 1
    ensures FailSoft(score, Value(board.Snapshot(), false, player, opponent), alpha, beta)
    decreases EmptyCount(board.board), 0
  {
    ghost var pos := board.Snapshot();
    var moves := AvailableMoves(board.board);
    var b := beta;
    var minEval := PosInf;
    var i := 0;
    while i < |moves|
      invariant 0 <= i <= |moves|
      invariant MinLoopInv(pos, i, alpha, beta, b, minEval, player, opponent)
    {
      var newBoard := PlayOnCopy(board, moves[i], opponent);
      ChildIsPlay(pos, i, false, player, opponent);
      assert newBoard.Snapshot() == Child(pos, i, false, player, opponent);
      var eval := MinimaxAB(newBoard, alpha, b, true, player, opponent);
      MinLoopStep(pos, i, alpha, beta, b, minEval, eval, player, opponent);
      minEval := Min(minEval, eval);
      b := Min(b, eval);
      if b <= alpha {
        break;
      }
      i := i + 1;
    }
    if i == |moves| {
      MinLoopDone(pos, alpha, beta, b, minEval, player, opponent);
    }
    score := minEval;
  }

  /** Plain minimax and alpha-beta with the window (-inf, +inf), run on the
      same board, give the same score. */
  method SearchesAgree<M(==)>(board: TicTacToe<M>, isMaximizing: bool, player: M, opponent: M)
    returns (plain: int, pruned: int)
    requires board.Valid()
    ensures plain == pruned
    ensures plain == Value(board.Snapshot(), isMaximizing, player, opponent)
  {
    plain := Minimax(board, isMaximizing, player, opponent);
    pruned := MinimaxAB(board, NegInf, PosInf, isMaximizing, player, opponent);
    FullWindowIsExact(pruned, plain);
  }

  /** The score of playing the k-th available move for `player`, the opponent
      then to move. */
  function MoveScore<M(==)>(pos: Position<M>, k: int, player: M, opponent: M): (r: int)
    requires |pos.cells| == Size && 0 <= k < |AvailableMoves(pos.cells)|
  {
    ChildValue(pos, k, true, player, opponent)
  }

  /** Index k is the first of the available moves with the highest score. */
  predicate IsFirstBest<M(==)>(pos: Position<M>, k: int, player: M, opponent: M)
    requires |pos.cells| == Size
  {
    && 0 <= k < |AvailableMoves(pos.cells)|
    && (forall j :: 0 <= j < |AvailableMoves(pos.cells)| ==> MoveScore(pos, j, player, opponent) <= MoveScore(pos, k, player, opponent))
    && (forall j :: 0 <= j < k ==> MoveScore(pos, j, player, opponent) < MoveScore(pos, k, player, opponent))
  }

  /** At most one index is the first best: the choice is deterministic. */
  lemma FirstBestUnique<M>(pos: Position<M>, k1: int, k2: int, player: M, opponent: M)
    requires |pos.cells| == Size
    requires IsFirstBest(pos, k1, player, opponent) && IsFirstBest(pos, k2, player, opponent)
    ensures k1 == k2
  {
    assert MoveScore(pos, k1, player, opponent) == MoveScore(pos, k2, player, opponent);
  }

  /** After scoring the first i moves (i > 0), move bk is the first with the
      highest score so far, and bestScore is its score. */
  ghost predicate FirstBestSoFar<M>(pos: Position<M>, i: nat, bk: int, bestScore: int, player: M, opponent: M)
    requires |pos.cells| == Size && i <= |AvailableMoves(pos.cells)|
  {
    && 0 <= bk < i
    && bestScore == MoveScore(pos, bk, player, opponent)
    && (forall j :: 0 <= j < i ==> MoveScore(pos, j, player, opponent) <= bestScore)
    && (forall j :: 0 <= j < bk ==> MoveScore(pos, j, player, opponent) < bestScore)
  }

  /** Scoring move i and keeping it only on a strict improvement extends
      FirstBestSoFar by one move. */
  lemma FirstBestStep<M>(pos: Position<M>, i: nat, bk: int, bestScore: int, score: int, player: M, opponent: M)
    requires |pos.cells| == Size && i < |AvailableMoves(pos.cells)|
    requires if i == 0 then bestScore == NegInf else FirstBestSoFar(pos, i, bk, bestScore, player, opponent)
    requires score == MoveScore(pos, i, player, opponent)
    ensures score > bestScore ==> FirstBestSoFar(pos, i + 1, i, score, player, opponent)
    ensures score <= bestScore ==> FirstBestSoFar(pos, i + 1, bk, bestScore, player, opponent)
  {
  }

  /** The move for `player`: None exactly when no move is available, otherwise
      the first available move with the highest score, whichever search is used. */
  method GetBestMove<M(==)>(board: TicTacToe<M>, player: M, opponent: M, useAlphaBeta: bool) returns (best: Option<int>)
    requires board.Valid()
    ensures best.None? <==> AvailableMoves(board.board) == []
    ensures best.Some? ==> exists k :: IsFirstBest(board.Snapshot(), k, player, opponent)
                                        && AvailableMoves(board.board)[k] == best.value
  {
    ghost var pos := board.Snapshot();
    var moves := AvailableMoves(board.board);
    var bestScore := NegInf;
    best := None;
    ghost var bk := 0;
    var i := 0;
    while i < |moves|
      invariant 0 <= i <= |moves|
      invariant i == 0 ==> best == None && bestScore == NegInf
      invariant i > 0 ==> FirstBestSoFar(pos, i, bk, bestScore, player, opponent) && best == Some(moves[bk])
    {
      var tempBoard := PlayOnCopy(board, moves[i], player);
      ChildIsPlay(pos, i, true, player, opponent);
      assert tempBoard.Snapshot() == Child(pos, i, true, player, opponent);
      var score;
      if useAlphaBeta {
        score := MinimaxAB(tempBoard, NegInf, PosInf, false, player, opponent);
        FullWindowIsExact(score, Value(tempBoard.Snapshot(), false, player, opponent));
      } else {
        score := Minimax(tempBoard, false, player, opponent);
      }
      FirstBestStep(pos, i, bk, bestScore, score, player, opponent);
      if score > bestScore {
        bestScore := score;
        best := Some(moves[i]);
        bk := i;
      }
      i := i + 1;
    }
    if best.Some? {
      assert IsFirstBest(pos, bk, player, opponent);
    }
  }
}
