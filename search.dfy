/**
 * The search of src/minimax/minimax.c as functions on game values: the
 * evaluation, the corner score, depth-limited alpha-beta `minimax` and the
 * candidate scan of `find_best_move`. Black minimises, white maximises.
 *
 * Two behaviours of the source are kept as written: the `is_max` flag handed
 * to the children is toggled after every child whose move passed the turn and
 * is never reset, so later siblings see the toggled value; and the prune flag
 * is only checked at the start of a row, so the rest of the current row is
 * still searched after alpha and beta cross.
 */
module Search {
  import opened Othello
  import opened Legality
  import opened Counting
  import opened Rules

  const MinScore: int := -10000
  const MaxScore: int := 10000
  const MaxDepth: int := 7
  const Huge: int := 1000000
  const CornerValue: int := 30

  /** `min`. */
  function Min(a: int, b: int): (r: int)
    ensures r <= a && r <= b && (r == a || r == b)
  {
    if a < b then a else b
  }

  /** `max`. */
  function Max(a: int, b: int): (r: int)
    ensures r >= a && r >= b && (r == a || r == b)
  {
    if a > b then a else b
  }

  /** What one corner square adds to the corner score. */
  function CornerPoints(s: Square): int
  {
    if s.status != Full then 0
    else if s.color == Black then -CornerValue
    else CornerValue
  }

  /** `evaluate_corners`: the four corners, visited as (0,0), (0,7), (7,0), (7,7). */
  function CornerScore(b: Board): (r: int)
    ensures -4 * CornerValue <= r <= 4 * CornerValue
  {
    CornerPoints(b[0][0]) + CornerPoints(b[0][7]) + CornerPoints(b[7][0]) + CornerPoints(b[7][7])
  }

  /** Marks do not matter to the corner score; only the corner discs do. */
  lemma CornerScoreIgnoresMarks(a: Board, b: Board)
    requires SameDiscs(a, b)
    ensures CornerScore(a) == CornerScore(b)
  {
    assert InBounds(0, 0) && InBounds(0, 7) && InBounds(7, 0) && InBounds(7, 7);
  }

  /**
   * `evaluate`: 0 while some square is marked; otherwise the game is over and
   * the disc majority decides (counters starting from zero).
   */
  function Evaluation(b: Board): (r: int)
    ensures r == MinScore || r == 0 || r == MaxScore
  {
    if HasValid(b) then 0
    else
      var white := Discs(b, White);
      var black := Discs(b, Black);
      if black > white then MinScore
      else if black < white then MaxScore
      else 0
  }

  /** The evaluation agrees with the announced outcome of a finished game. */
  lemma EvaluationMeaning(b: Board)
    ensures HasValid(b) ==> Evaluation(b) == 0
    ensures Evaluation(b) == MinScore <==> !HasValid(b) && GameOutcome(b) == Winner(Black)
    ensures Evaluation(b) == MaxScore <==> !HasValid(b) && GameOutcome(b) == Winner(White)
    ensures !HasValid(b) && GameOutcome(b) == Draw ==> Evaluation(b) == 0
  {
  }

  /**
   * One child of a search node: the move is made, then the turn is switched if
   * the opponent can move, or the marks are recomputed for the same mover.
   * The flag says whether the turn was switched.
   */
  function SearchChild(g: GameView, mv: Move): (GameView, bool)
  {
    var t := Transformed(g, mv);
    if HasValid(t.board) then (t.(turn := Switch(t.turn)), true)
    else (t.(board := Marked(t.board, Mover(t))), false)
  }

  /**
   * How a search node produces a child from a move: the child game and whether
   * the turn was switched. The search below is stated for any such step; the
   * program's own is `SearchChild`.
   */
  type ChildStep = (GameView, Move) -> (GameView, bool)

  /**
   * A step that agrees with `SearchChild` everywhere. The agreement is used
   * only where a `SearchChild` term is already present, so that reasoning
   * about a node does not unfold the child computation of every square.
   */
  ghost predicate IsSearchChild(step: ChildStep)
  {
    forall g, mv {:trigger SearchChild(g, mv)} :: step(g, mv) == SearchChild(g, mv)
  }

  /** The program's own step qualifies. */
  lemma SearchChildQualifies()
    ensures IsSearchChild(SearchChild)
  {
  }

  /**
   * The local variables of a `minimax` call between two candidates: the best
   * score so far, alpha, beta, the prune flag, the `is_max` flag handed to the
   * next child, and the scores of the children tried so far.
   */
  datatype Frame = Frame(best: int, alpha: int, beta: int, prune: bool, isMax: bool, tried: seq<int>)

  /** The update after a child scored `s`; the node kind is the `is_max` the node was called with. */
  function Update(f: Frame, maximizing: bool, s: int, isMax: bool): Frame
  {
    if maximizing then
      var alpha := Max(f.alpha, s);
      Frame(Max(f.best, s), alpha, f.beta, f.prune || f.beta <= alpha, isMax, f.tried + [s])
    else
      var beta := Min(f.beta, s);
      Frame(Min(f.best, s), f.alpha, beta, f.prune || beta <= f.alpha, isMax, f.tried + [s])
  }

  /** `minimax`. */
  function Minimax(step: ChildStep, g: GameView, depth: int, isMax: bool, alpha: int, beta: int): (r: int)
    requires 0 <= depth <= MaxDepth
    decreases MaxDepth - depth, 1, 0, 0, g
    ensures -Huge <= r <= Huge
  {
    var score := Evaluation(g.board);
    if score == MinScore then score + depth + CornerScore(g.board)
    else if score == MaxScore then score - depth + CornerScore(g.board)
    else if depth == MaxDepth then score + CornerScore(g.board)
    else NodeRun(step, g, depth, isMax, Frame(if isMax then -Huge else Huge, alpha, beta, false, isMax, []), 0, 0).best
  }

  /**
   * The candidate loop of a `minimax` node from square (i, j) on: rows are
   * abandoned once the prune flag is set at the start of a row, each valid
   * square is tried, and its child is searched one level deeper.
   */
  function NodeRun(step: ChildStep, g: GameView, depth: int, maximizing: bool, f: Frame, i: int, j: int): (r: Frame)
    requires 0 <= depth < MaxDepth && WalkPosition(i, j)
    decreases MaxDepth - depth, 0, BoardSize - i, BoardSize - j, g
    ensures -Huge <= f.best <= Huge ==> -Huge <= r.best <= Huge
  {
    if i == BoardSize then f
    else if j == 0 && f.prune then f
    else if j == BoardSize then NodeRun(step, g, depth, maximizing, f, i + 1, 0)
    else if g.board[i][j].status != Valid then NodeRun(step, g, depth, maximizing, f, i, j + 1)
    else
      var (child, switched) := step(g, Move(j, i));
      var isMax := if switched then !f.isMax else f.isMax;
      var s := Minimax(step, child, depth + 1, isMax, f.alpha, f.beta);
      NodeRun(step, g, depth, maximizing, Update(f, maximizing, s, isMax), i, j + 1)
  }

  /** `v` is the least of `start` and the values in `s`. */
  ghost predicate MinOver(v: int, start: int, s: seq<int>)
  {
    && v <= start
    && (forall k :: 0 <= k < |s| ==> v <= s[k])
    && (v == start || exists k :: 0 <= k < |s| && v == s[k])
  }

  /** `v` is the greatest of `start` and the values in `s`. */
  ghost predicate MaxOver(v: int, start: int, s: seq<int>)
  {
    && v >= start
    && (forall k :: 0 <= k < |s| ==> v >= s[k])
    && (v == start || exists k :: 0 <= k < |s| && v == s[k])
  }

  lemma MinOverStep(v: int, start: int, x: int, s: seq<int>)
    requires MinOver(v, Min(start, x), s)
    ensures MinOver(v, start, [x] + s)
  {
    if v != Min(start, x) {
      var k :| 0 <= k < |s| && v == s[k];
      assert ([x] + s)[k + 1] == s[k];
    } else if v == x {
      assert ([x] + s)[0] == x;
    }
    forall k | 0 <= k < |[x] + s|
      ensures v <= ([x] + s)[k]
    {
      if k > 0 {
        assert ([x] + s)[k] == s[k - 1];
      }
    }
  }

  lemma MaxOverStep(v: int, start: int, x: int, s: seq<int>)
    requires MaxOver(v, Max(start, x), s)
    ensures MaxOver(v, start, [x] + s)
  {
    if v != Max(start, x) {
      var k :| 0 <= k < |s| && v == s[k];
      assert ([x] + s)[k + 1] == s[k];
    } else if v == x {
      assert ([x] + s)[0] == x;
    }
    forall k | 0 <= k < |[x] + s|
      ensures v >= ([x] + s)[k]
    {
      if k > 0 {
        assert ([x] + s)[k] == s[k - 1];
      }
    }
  }

  /** The child tried at a valid square (i, j): its game, and the `is_max` flag it is searched with. */
  function ChildAt(step: ChildStep, g: GameView, f: Frame, i: int, j: int): (GameView, bool)
    requires InBounds(i, j)
  {
    var (child, switched) := step(g, Move(j, i));
    (child, if switched then !f.isMax else f.isMax)
  }

  lemma NodeRunValidStep(step: ChildStep, g: GameView, depth: int, maximizing: bool, f: Frame, i: int, j: int)
    requires 0 <= depth < MaxDepth && InBounds(i, j) && !(j == 0 && f.prune) && g.board[i][j].status == Valid
    ensures var c := ChildAt(step, g, f, i, j);
      NodeRun(step, g, depth, maximizing, f, i, j) ==
        NodeRun(step, g, depth, maximizing, Update(f, maximizing, Minimax(step, c.0, depth + 1, c.1, f.alpha, f.beta), c.1), i, j + 1)
  {
  }

  /** The same step, for a child and score already computed by the caller. */
  lemma NodeRunChildStep(step: ChildStep, g: GameView, depth: int, maximizing: bool, f: Frame, i: int, j: int,
      child: GameView, switched: bool, s: int)
    requires 0 <= depth < MaxDepth && InBounds(i, j) && !(j == 0 && f.prune) && g.board[i][j].status == Valid
    requires step(g, Move(j, i)) == (child, switched)
    requires s == Minimax(step, child, depth + 1, if switched then !f.isMax else f.isMax, f.alpha, f.beta)
    ensures NodeRun(step, g, depth, maximizing, f, i, j) ==
      NodeRun(step, g, depth, maximizing, Update(f, maximizing, s, if switched then !f.isMax else f.isMax), i, j + 1)
  {
    NodeRunValidStep(step, g, depth, maximizing, f, i, j);
  }

  lemma NodeRunSkipStep(step: ChildStep, g: GameView, depth: int, maximizing: bool, f: Frame, i: int, j: int)
    requires 0 <= depth < MaxDepth && 0 <= i < BoardSize && 0 <= j <= BoardSize && !(j == 0 && f.prune)
    requires j == BoardSize || g.board[i][j].status != Valid
    ensures NodeRun(step, g, depth, maximizing, f, i, j) ==
      if j == BoardSize then NodeRun(step, g, depth, maximizing, f, i + 1, 0) else NodeRun(step, g, depth, maximizing, f, i, j + 1)
  {
  }

  /** What a stretch of the candidate loop does to the frame of a node. */
  ghost predicate Traced(f: Frame, r: Frame, maximizing: bool)
  {
    && f.tried <= r.tried
    && (f.prune ==> r.prune)
    && (!maximizing ==> r.alpha == f.alpha && MinOver(r.best, f.best, r.tried[|f.tried|..]) && MinOver(r.beta, f.beta, r.tried[|f.tried|..]))
    && (maximizing ==> r.beta == f.beta && MaxOver(r.best, f.best, r.tried[|f.tried|..]) && MaxOver(r.alpha, f.alpha, r.tried[|f.tried|..]))
  }

  lemma TracedStep(f: Frame, maximizing: bool, s: int, isMax: bool, r: Frame)
    requires Traced(Update(f, maximizing, s, isMax), r, maximizing)
    ensures Traced(f, r, maximizing)
  {
    var f1 := Update(f, maximizing, s, isMax);
    assert r.tried[|f.tried|..] == [s] + r.tried[|f1.tried|..];
    if maximizing {
      MaxOverStep(r.best, f.best, s, r.tried[|f1.tried|..]);
      MaxOverStep(r.alpha, f.alpha, s, r.tried[|f1.tried|..]);
    } else {
      MinOverStep(r.best, f.best, s, r.tried[|f1.tried|..]);
      MinOverStep(r.beta, f.beta, s, r.tried[|f1.tried|..]);
    }
  }

  /**
   * A minimising node's best score and beta are the minimum of their starting
   * values and the children's scores, and alpha is untouched; a maximising
   * node's best score and alpha are the maximum, and beta is untouched. So
   * beta only decreases at a minimising node and alpha only increases at a
   * maximising one; the prune flag is never cleared.
   */
  lemma {:induction false} NodeRunTrace(step: ChildStep, g: GameView, depth: int, maximizing: bool, f: Frame, i: int, j: int)
    requires 0 <= depth < MaxDepth && WalkPosition(i, j)
    decreases BoardSize - i, BoardSize - j
    ensures Traced(f, NodeRun(step, g, depth, maximizing, f, i, j), maximizing)
  {
    if i == BoardSize || (j == 0 && f.prune) {
      assert NodeRun(step, g, depth, maximizing, f, i, j) == f;
      TracedNothing(f, maximizing);
    } else if j == BoardSize {
      NodeRunTrace(step, g, depth, maximizing, f, i + 1, 0);
      NodeRunSkipStep(step, g, depth, maximizing, f, i, j);
    } else if g.board[i][j].status != Valid {
      NodeRunTrace(step, g, depth, maximizing, f, i, j + 1);
      NodeRunSkipStep(step, g, depth, maximizing, f, i, j);
    } else {
      var c := ChildAt(step, g, f, i, j);
      var f1 := Update(f, maximizing, Minimax(step, c.0, depth + 1, c.1, f.alpha, f.beta), c.1);
      NodeRunTrace(step, g, depth, maximizing, f1, i, j + 1);
      TraceValidStep(step, g, depth, maximizing, f, i, j);
    }
  }

  lemma TracedNothing(f: Frame, maximizing: bool)
    ensures Traced(f, f, maximizing)
  {
    assert f.tried[|f.tried|..] == [];
  }

  lemma TraceValidStep(step: ChildStep, g: GameView, depth: int, maximizing: bool, f: Frame, i: int, j: int)
    requires 0 <= depth < MaxDepth && InBounds(i, j) && !(j == 0 && f.prune) && g.board[i][j].status == Valid
    requires var c := ChildAt(step, g, f, i, j);
      var f1 := Update(f, maximizing, Minimax(step, c.0, depth + 1, c.1, f.alpha, f.beta), c.1);
      Traced(f1, NodeRun(step, g, depth, maximizing, f1, i, j + 1), maximizing)
    ensures Traced(f, NodeRun(step, g, depth, maximizing, f, i, j), maximizing)
  {
    var c := ChildAt(step, g, f, i, j);
    var s := Minimax(step, c.0, depth + 1, c.1, f.alpha, f.beta);
    NodeRunValidStep(step, g, depth, maximizing, f, i, j);
    TracedStep(f, maximizing, s, c.1, NodeRun(step, g, depth, maximizing, f, i, j));
  }

  /** The number of valid squares in row i from column j on. */
  function ValidInRow(b: Board, i: int, j: int): nat
    requires 0 <= i < BoardSize && 0 <= j <= BoardSize
    decreases BoardSize - j
  {
    if j == BoardSize then 0
    else (if b[i][j].status == Valid then 1 else 0) + ValidInRow(b, i, j + 1)
  }

  /**
   * Once the prune flag is set, a node tries no square of a later row, but
   * still tries every remaining valid square of the current row.
   */
  lemma {:induction false} PruneFinishesRow(step: ChildStep, g: GameView, depth: int, maximizing: bool, f: Frame, i: int, j: int)
    requires 0 <= depth < MaxDepth && 0 <= i < BoardSize && 0 <= j <= BoardSize && f.prune
    decreases BoardSize - j
    ensures j == 0 ==> NodeRun(step, g, depth, maximizing, f, i, j) == f
    ensures j > 0 ==> |NodeRun(step, g, depth, maximizing, f, i, j).tried| == |f.tried| + ValidInRow(g.board, i, j)
  {
    if 0 < j < BoardSize {
      if g.board[i][j].status == Valid {
        var c := ChildAt(step, g, f, i, j);
        var s := Minimax(step, c.0, depth + 1, c.1, f.alpha, f.beta);
        NodeRunValidStep(step, g, depth, maximizing, f, i, j);
        PruneFinishesRow(step, g, depth, maximizing, Update(f, maximizing, s, c.1), i, j + 1);
      } else {
        PruneFinishesRow(step, g, depth, maximizing, f, i, j + 1);
      }
    }
  }

  /** Without a valid square a node tries nothing. */
  lemma {:induction false} NodeRunNoMoves(step: ChildStep, g: GameView, depth: int, maximizing: bool, f: Frame, i: int, j: int)
    requires 0 <= depth < MaxDepth && WalkPosition(i, j)
    requires !HasValid(g.board)
    decreases BoardSize - i, BoardSize - j
    ensures NodeRun(step, g, depth, maximizing, f, i, j) == f
  {
    if i < BoardSize && !(j == 0 && f.prune) {
      if j == BoardSize {
        NodeRunNoMoves(step, g, depth, maximizing, f, i + 1, 0);
      } else {
        assert g.board[i][j].status != Valid;
        NodeRunNoMoves(step, g, depth, maximizing, f, i, j + 1);
      }
    }
  }

  /**
   * The leaves of the search: a finished game won by black scores
   * -10000 + depth plus the corners, one won by white 10000 - depth plus the
   * corners, and any other position at the depth limit the corners alone.
   */
  lemma MinimaxLeaves(step: ChildStep, g: GameView, depth: int, isMax: bool, alpha: int, beta: int)
    requires 0 <= depth <= MaxDepth
    ensures !HasValid(g.board) && GameOutcome(g.board) == Winner(Black) ==>
      Minimax(step, g, depth, isMax, alpha, beta) == MinScore + depth + CornerScore(g.board)
    ensures !HasValid(g.board) && GameOutcome(g.board) == Winner(White) ==>
      Minimax(step, g, depth, isMax, alpha, beta) == MaxScore - depth + CornerScore(g.board)
    ensures depth == MaxDepth && (HasValid(g.board) || GameOutcome(g.board) == Draw) ==>
      Minimax(step, g, depth, isMax, alpha, beta) == CornerScore(g.board)
  {
    EvaluationMeaning(g.board);
  }

  /**
   * A drawn finished game above the depth limit tries no move and returns the
   * starting value of its node: HUGE for a minimiser, -HUGE for a maximiser.
   */
  lemma DrawnTerminal(step: ChildStep, g: GameView, depth: int, isMax: bool, alpha: int, beta: int)
    requires 0 <= depth < MaxDepth
    requires !HasValid(g.board) && GameOutcome(g.board) == Draw
    ensures Minimax(step, g, depth, isMax, alpha, beta) == if isMax then -Huge else Huge
  {
    EvaluationMeaning(g.board);
    NodeRunNoMoves(step, g, depth, isMax, Frame(if isMax then -Huge else Huge, alpha, beta, false, isMax, []), 0, 0);
  }

  /**
   * At a node that is searched (not a leaf), a minimiser returns the least of
   * HUGE and its children's scores, a maximiser the greatest of -HUGE and them.
   */
  lemma MinimaxNode(step: ChildStep, g: GameView, depth: int, isMax: bool, alpha: int, beta: int)
    requires 0 <= depth < MaxDepth && Evaluation(g.board) == 0
    ensures var f := Frame(if isMax then -Huge else Huge, alpha, beta, false, isMax, []);
      var r := NodeRun(step, g, depth, isMax, f, 0, 0);
      && Minimax(step, g, depth, isMax, alpha, beta) == r.best
      && (!isMax ==> MinOver(r.best, Huge, r.tried))
      && (isMax ==> MaxOver(r.best, -Huge, r.tried))
  {
    var f := Frame(if isMax then -Huge else Huge, alpha, beta, false, isMax, []);
    NodeRunTrace(step, g, depth, isMax, f, 0, 0);
    var r := NodeRun(step, g, depth, isMax, f, 0, 0);
    assert r.tried[|f.tried|..] == r.tried;
    assert Traced(f, r, isMax);
  }

  /** A move tried by `find_best_move` and the score its child received. */
  datatype Candidate = Candidate(move: Move, score: int)

  /**
   * The valid squares from (i, j) on in row-major order with their scores:
   * each child is searched from depth 0 with the full window, and `is_max` is
   * toggled after every child whose move passed the turn.
   */
  function Candidates(step: ChildStep, g: GameView, isMax: bool, i: int, j: int): seq<Candidate>
    requires WalkPosition(i, j)
    decreases BoardSize - i, BoardSize - j, g
  {
    if i == BoardSize then []
    else if j == BoardSize then Candidates(step, g, isMax, i + 1, 0)
    else if g.board[i][j].status != Valid then Candidates(step, g, isMax, i, j + 1)
    else
      var (child, switched) := step(g, Move(j, i));
      var next := if switched then !isMax else isMax;
      [Candidate(Move(j, i), Minimax(step, child, 0, next, -Huge, Huge))] + Candidates(step, g, next, i, j + 1)
  }
  /** One candidate of the list, for a child and score already computed by the caller. */
  lemma CandidatesChildStep(step: ChildStep, g: GameView, isMax: bool, i: int, j: int, child: GameView, switched: bool, s: int)
    requires InBounds(i, j) && g.board[i][j].status == Valid
    requires step(g, Move(j, i)) == (child, switched)
    requires s == Minimax(step, child, 0, if switched then !isMax else isMax, -Huge, Huge)
    ensures Candidates(step, g, isMax, i, j) ==
      [Candidate(Move(j, i), s)] + Candidates(step, g, if switched then !isMax else isMax, i, j + 1)
  {
  }


  function Position(m: Move): int
  {
    m.row * BoardSize + m.column
  }

  /** The moves of `cs` are valid squares of `b`, at or after position `p`, in strictly increasing row-major order. */
  ghost predicate InOrderFrom(b: Board, cs: seq<Candidate>, p: int)
  {
    && (forall k :: 0 <= k < |cs| ==> b[cs[k].move.row][cs[k].move.column].status == Valid && Position(cs[k].move) >= p)
    && (forall k :: 0 < k < |cs| ==> Position(cs[k - 1].move) < Position(cs[k].move))
  }

  lemma InOrderCons(b: Board, c: Candidate, cs: seq<Candidate>, p: int)
    requires InOrderFrom(b, cs, p + 1) && Position(c.move) == p && b[c.move.row][c.move.column].status == Valid
    ensures InOrderFrom(b, [c] + cs, p)
  {
    var r := [c] + cs;
    forall k | 0 < k < |r|
      ensures Position(r[k - 1].move) < Position(r[k].move)
    {
      assert r[k] == cs[k - 1];
    }
  }

  /** Candidates are valid squares, at or after (i, j), strictly increasing in row-major order. */
  lemma {:induction false} CandidatesInOrder(step: ChildStep, g: GameView, isMax: bool, i: int, j: int)
    requires WalkPosition(i, j)
    decreases BoardSize - i, BoardSize - j
    ensures InOrderFrom(g.board, Candidates(step, g, isMax, i, j), i * BoardSize + j)
  {
    if i == BoardSize {
    } else if j == BoardSize {
      CandidatesInOrder(step, g, isMax, i + 1, 0);
      assert Candidates(step, g, isMax, i, j) == Candidates(step, g, isMax, i + 1, 0);
    } else if g.board[i][j].status != Valid {
      CandidatesInOrder(step, g, isMax, i, j + 1);
      assert Candidates(step, g, isMax, i, j) == Candidates(step, g, isMax, i, j + 1);
    } else {
      var (child, switched) := step(g, Move(j, i));
      var next := if switched then !isMax else isMax;
      CandidatesInOrder(step, g, next, i, j + 1);
      var c := Candidate(Move(j, i), Minimax(step, child, 0, next, -Huge, Huge));
      assert Candidates(step, g, isMax, i, j) == [c] + Candidates(step, g, next, i, j + 1);
      InOrderCons(g.board, c, Candidates(step, g, next, i, j + 1), i * BoardSize + j);
    }
  }

  /** The score and move `find_best_move` holds; None while the move has not been written. */
  datatype Choice = Choice(score: int, move: Option<Move>)

  predicate Better(minimizing: bool, a: int, b: int)
  {
    if minimizing then a < b else a > b
  }

  /** Candidate `k` holds the choice `r`, and `r` is strictly better than every candidate before it. */
  ghost predicate FirstBestAt(cs: seq<Candidate>, minimizing: bool, r: Choice, k: int)
  {
    && 0 <= k < |cs|
    && r == Choice(cs[k].score, Some(cs[k].move))
    && forall l :: 0 <= l < k ==> Better(minimizing, r.score, cs[l].score)
  }

  /** The strict comparison of `find_best_move` over the candidates in order. */
  function Select(cs: seq<Candidate>, minimizing: bool, c: Choice): Choice
    decreases |cs|
  {
    if cs == [] then c
    else
      var next := if Better(minimizing, cs[0].score, c.score) then Choice(cs[0].score, Some(cs[0].move)) else c;
      Select(cs[1..], minimizing, next)
  }

  /**
   * First best: the selected score is at least as good as the start and every
   * candidate; unless nothing improved on the start, it is the score of some
   * candidate that is strictly better than all candidates before it.
   */
  lemma {:induction false} SelectFirstBest(cs: seq<Candidate>, minimizing: bool, c: Choice)
    decreases |cs|
    ensures var r := Select(cs, minimizing, c);
      && !Better(minimizing, c.score, r.score)
      && (forall l :: 0 <= l < |cs| ==> !Better(minimizing, cs[l].score, r.score))
      && (r == c || (Better(minimizing, r.score, c.score) && exists k :: FirstBestAt(cs, minimizing, r, k)))
  {
    if cs != [] {
      var next := if Better(minimizing, cs[0].score, c.score) then Choice(cs[0].score, Some(cs[0].move)) else c;
      SelectFirstBest(cs[1..], minimizing, next);
      var r := Select(cs, minimizing, c);
      assert r == Select(cs[1..], minimizing, next);
      forall l | 0 <= l < |cs|
        ensures !Better(minimizing, cs[l].score, r.score)
      {
        if l > 0 {
          assert cs[l] == cs[1..][l - 1];
        }
      }
      if r != c {
        if r == next {
          assert r == Choice(cs[0].score, Some(cs[0].move));
          assert FirstBestAt(cs, minimizing, r, 0);
        } else {
          var k :| FirstBestAt(cs[1..], minimizing, r, k);
          assert cs[k + 1] == cs[1..][k];
          forall l | 0 <= l < k + 1
            ensures Better(minimizing, r.score, cs[l].score)
          {
            if l > 0 {
              assert cs[l] == cs[1..][l - 1];
            }
          }
          assert FirstBestAt(cs, minimizing, r, k + 1);
        }
      }
    }
  }

  /** `find_best_move`: black minimises from HUGE, white maximises from -HUGE. */
  function BestMove(step: ChildStep, g: GameView): Choice
  {
    var minimizing := Mover(g) == Black;
    Select(Candidates(step, g, !minimizing, 0, 0), minimizing, Choice(if minimizing then Huge else -Huge, None))
  }

  /**
   * The move chosen is the first candidate in row-major order with the best
   * score: its score beats every earlier candidate strictly and is matched by
   * no later one; with no such candidate the move is left unwritten.
   */
  lemma BestMoveIsFirstBest(step: ChildStep, g: GameView)
    ensures var minimizing := Mover(g) == Black;
      var cs := Candidates(step, g, !minimizing, 0, 0);
      var r := BestMove(step, g);
      && (forall l :: 0 <= l < |cs| ==> !Better(minimizing, cs[l].score, r.score))
      && (r.move.None? ==> r.score == (if minimizing then Huge else -Huge))
      && (r.move.Some? ==> exists k :: FirstBestAt(cs, minimizing, r, k))
  {
    var minimizing := Mover(g) == Black;
    var cs := Candidates(step, g, !minimizing, 0, 0);
    SelectFirstBest(cs, minimizing, Choice(if minimizing then Huge else -Huge, None));
  }
}
