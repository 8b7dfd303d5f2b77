/**
 * The search of src/minimax/minimax.c on the game object itself: every child
 * is made on the game in place (`transform_board`, then the turn switch or
 * the pass), searched, and undone by writing back the copy taken before the
 * loop. Each method is proved to return what the functions of `Search`
 * compute for the game as it was on entry, and to leave the game as it was.
 */
module Cpu {
  import opened Othello
  import opened Legality
  import opened Counting
  import opened Rules
  import opened Search
  import opened Engine

  /** `evaluate`: 0 while a move is marked, otherwise the disc majority (counters started at zero). */
  method Evaluate(game: Game) returns (score: int)
    requires game.Valid()
    ensures score == Evaluation(game.model)
  {
    var canMove := game.CheckForValidMoves();
    if !canMove {
      var white, black := game.GetGameScore(0, 0);
      if black > white {
        return MinScore;
      } else if black < white {
        return MaxScore;
      } else {
        return 0;
      }
    }
    return 0;
  }

  /** `evaluate_corners`: the corners (0,0), (0,7), (7,0), (7,7) in that order. */
  method EvaluateCorners(game: Game) returns (score: int)
    requires game.Valid()
    ensures score == CornerScore(game.model)
  {
    var b := game.model;
    score := 0;
    var indices := [0, BoardSize - 1];
    for i := 0 to 2
      invariant score == if i == 0 then 0
        else if i == 1 then CornerPoints(b[0][0]) + CornerPoints(b[0][7])
        else CornerScore(b)
    {
      ghost var start := score;
      for j := 0 to 2
        invariant score == start
          + (if j >= 1 then CornerPoints(b[indices[i]][0]) else 0)
          + (if j >= 2 then CornerPoints(b[indices[i]][7]) else 0)
      {
        var square := game.board[indices[i], indices[j]];
        if square.status == Full {
          if square.color == Black {
            score := score - CornerValue;
          } else {
            score := score + CornerValue;
          }
        }
      }
    }
  }

  /**
   * `make the move` in the loops of `minimax` and `find_best_move`:
   * `transform_board`, then the turn is switched if the opponent can move,
   * otherwise the same mover's moves are marked. Returns whether the turn
   * was switched.
   */
  method MakeChild(game: Game, mv: Move) returns (switched: bool)
    requires game.Valid()
    modifies game`model, game`turn, game.board
    ensures game.Valid() && (game.View(), switched) == SearchChild(old(game.View()), mv)
  {
    game.TransformBoard(mv);
    switched := game.CheckForValidMoves();
    if switched {
      game.SwitchPlayer();
    } else {
      game.MarkValidMoves(PlayerColor(game.turn, game.players));
    }
  }

  /**
   * One child of a search node, as each candidate loop does it: the move is
   * made, `is_max` is toggled if the turn was switched, the child is scored by
   * `minimax` at `childDepth`, and the copy of the game is written back.
   */
  method TryChild(game: Game, copy: GameView, mv: Move, childDepth: int, isMax: bool, alpha: int, beta: int,
      ghost step: ChildStep)
    returns (nextIsMax: bool, score: int)
    requires IsSearchChild(step)
    requires game.Valid() && game.View() == copy && 0 <= childDepth <= MaxDepth
    modifies game, game.board
    decreases MaxDepth - childDepth, 3
    ensures game.Valid() && game.View() == copy
    ensures var (child, switched) := step(copy, mv);
      && nextIsMax == (if switched then !isMax else isMax)
      && score == Search.Minimax(step, child, childDepth, nextIsMax, alpha, beta)
  {
    var switched := MakeChild(game, mv);
    nextIsMax := if switched then !isMax else isMax;
    score := Minimax(game, childDepth, nextIsMax, alpha, beta, step);
    game.Restore(copy);
  }

  /**
   * `minimax`: the score of the game for the given depth, node kind and
   * window, computed on the game in place; the game is left as it was found.
   */
  method Minimax(game: Game, depth: int, isMax: bool, alpha: int, beta: int, ghost step: ChildStep) returns (best: int)
    requires IsSearchChild(step)
    requires game.Valid() && 0 <= depth <= MaxDepth
    modifies game, game.board
    decreases MaxDepth - depth, 2
    ensures game.Valid() && game.View() == old(game.View())
    ensures best == Search.Minimax(step, old(game.View()), depth, isMax, alpha, beta)
  {
    var score := Evaluate(game);
    if score == MinScore {
      var corners := EvaluateCorners(game);
      return score + depth + corners;
    } else if score == MaxScore {
      var corners := EvaluateCorners(game);
      return score - depth + corners;
    } else if depth == MaxDepth {
      var corners := EvaluateCorners(game);
      return score + corners;
    }
    best := TryMoves(game, depth, isMax, alpha, beta, step);
  }

  /**
   * The candidate loops of `minimax` (the recursive case): the valid squares
   * in row-major order, each searched one level deeper; the prune flag is
   * checked at the start of every row.
   */
  method TryMoves(game: Game, depth: int, isMax0: bool, alpha0: int, beta0: int, ghost step: ChildStep)
    returns (best: int)
    requires IsSearchChild(step)
    requires game.Valid() && 0 <= depth < MaxDepth
    modifies game, game.board
    decreases MaxDepth - depth, 1
    ensures game.Valid() && game.View() == old(game.View())
    ensures best == NodeRun(step, old(game.View()), depth, isMax0,
      Frame(if isMax0 then -Huge else Huge, alpha0, beta0, false, isMax0, []), 0, 0).best
  {
    var copy := game.Snapshot();
    var prune := false;
    var isMax := isMax0;
    var alpha, beta := alpha0, beta0;
    best := if isMax0 then -Huge else Huge;
    ghost var f := Frame(best, alpha, beta, prune, isMax, []);
    ghost var target := NodeRun(step, copy, depth, isMax0, f, 0, 0);
    var i := 0;
    while i < BoardSize
      invariant game.Valid() && game.View() == copy && 0 <= i <= BoardSize
      invariant f == Frame(best, alpha, beta, prune, isMax, f.tried)
      invariant NodeRun(step, copy, depth, isMax0, f, i, 0) == target
    {
      if prune {
        break;
      }
      for j := 0 to BoardSize
        invariant game.Valid() && game.View() == copy
        invariant f == Frame(best, alpha, beta, prune, isMax, f.tried)
        invariant j == 0 ==> !prune
        invariant NodeRun(step, copy, depth, isMax0, f, i, j) == target
      {
        if game.board[i, j].status == Status.Valid {
          best, alpha, beta, prune, isMax, f := TrySquare(game, copy, depth, isMax0, i, j, f, best, alpha, beta, prune, isMax, step);
        } else {
          NodeRunSkipStep(step, copy, depth, isMax0, f, i, j);
        }
      }
      NodeRunSkipStep(step, copy, depth, isMax0, f, i, BoardSize);
      i := i + 1;
    }
  }

  /**
   * One pass of the inner candidate loop of `minimax`: a valid square is
   * searched and the node's locals updated, any other square is skipped.
   */
  method TrySquare(game: Game, copy: GameView, depth: int, isMax0: bool, i: int, j: int, ghost f: Frame,
      best0: int, alpha0: int, beta0: int, prune0: bool, isMaxIn: bool, ghost step: ChildStep)
    returns (best: int, alpha: int, beta: int, prune: bool, isMax: bool, ghost f': Frame)
    requires IsSearchChild(step)
    requires game.Valid() && game.View() == copy && 0 <= depth < MaxDepth && InBounds(i, j)
    requires f == Frame(best0, alpha0, beta0, prune0, isMaxIn, f.tried) && !(j == 0 && prune0)
    requires copy.board[i][j].status == Valid
    modifies game, game.board
    decreases MaxDepth - depth, 0
    ensures game.Valid() && game.View() == copy
    ensures f' == Frame(best, alpha, beta, prune, isMax, f'.tried)
    ensures NodeRun(step, copy, depth, isMax0, f, i, j) == NodeRun(step, copy, depth, isMax0, f', i, j + 1)
  {
    ghost var (child, switched) := step(copy, Move(j, i));
    var moveScore;
    isMax, moveScore := TryChild(game, copy, Move(j, i), depth + 1, isMaxIn, alpha0, beta0, step);
    NodeRunChildStep(step, copy, depth, isMax0, f, i, j, child, switched, moveScore);
    best, alpha, beta, prune := best0, alpha0, beta0, prune0;
    if isMax0 {
      best := Max(best, moveScore);
      alpha := Max(alpha, moveScore);
    } else {
      best := Min(best, moveScore);
      beta := Min(beta, moveScore);
    }
    if beta <= alpha {
      prune := true;
    }
    f' := Update(f, isMax0, moveScore, isMax);
  }

  /**
   * A valid square of the loop of `find_best_move`: the child is searched
   * from depth 0 with the full window; the result is the head of the
   * remaining candidate list.
   */
  method TryCandidate(game: Game, copy: GameView, i: int, j: int, isMaxIn: bool, ghost step: ChildStep)
    returns (isMax: bool, moveScore: int)
    requires IsSearchChild(step)
    requires game.Valid() && game.View() == copy && InBounds(i, j) && copy.board[i][j].status == Valid
    modifies game, game.board
    ensures game.Valid() && game.View() == copy
    ensures Candidates(step, copy, isMaxIn, i, j) ==
      [Candidate(Move(j, i), moveScore)] + Candidates(step, copy, isMax, i, j + 1)
  {
    ghost var (child, switched) := step(copy, Move(j, i));
    isMax, moveScore := TryChild(game, copy, Move(j, i), 0, isMaxIn, -Huge, Huge, step);
    CandidatesChildStep(step, copy, isMaxIn, i, j, child, switched, moveScore);
  }

  /**
   * `find_best_move`: every valid square in row-major order is tried with a
   * search from depth 0; the first strictly better score replaces the move.
   * `move0` is what the caller's move variable held, returned unchanged when
   * no candidate beats the starting score.
   */
  method FindBestMove(game: Game, move0: Move, ghost step: ChildStep) returns (score: int, move: Move)
    requires IsSearchChild(step)
    requires game.Valid()
    modifies game, game.board
    ensures game.Valid() && game.View() == old(game.View())
    ensures var r := BestMove(step, old(game.View()));
      score == r.score && move == if r.move.Some? then r.move.value else move0
  {
    var isMax := PlayerColor(game.turn, game.players) != Black;
    var minimizing := !isMax;
    var copy := game.Snapshot();
    score := if minimizing then Huge else -Huge;
    move := move0;
    ghost var chosen: Option<Move> := None;
    ghost var target := BestMove(step, copy);
    for i := 0 to BoardSize
      invariant game.Valid() && game.View() == copy
      invariant move == if chosen.Some? then chosen.value else move0
      invariant Select(Candidates(step, copy, isMax, i, 0), minimizing, Choice(score, chosen)) == target
    {
      for j := 0 to BoardSize
        invariant game.Valid() && game.View() == copy
        invariant move == if chosen.Some? then chosen.value else move0
        invariant Select(Candidates(step, copy, isMax, i, j), minimizing, Choice(score, chosen)) == target
      {
        if game.board[i, j].status == Status.Valid {
          var moveScore;
          isMax, moveScore := TryCandidate(game, copy, i, j, isMax, step);
          if Better(minimizing, moveScore, score) {
            move := Move(j, i);
            score := moveScore;
            chosen := Some(move);
          }
        }
      }
    }
  }
}
