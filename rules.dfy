/**
 * The move applier and the turn logic of src/logic/logic.c as functions on
 * game values: the opening position, whose colour moves, `transform_board`,
 * `switch_player`, `turn_transition`, one round of `transform_game` and the
 * whole of it.
 */
module Rules {
  import opened Othello
  import opened Legality
  import opened Capture
  import opened Counting

  /** The square `initialize_board` writes at (i, j). */
  function InitialSquare(i: int, j: int): Square
  {
    if 3 <= i <= 4 && 3 <= j <= 4 then Square(Full, if (i + j) % 2 == 0 then White else Black)
    else Square(Empty, White)
  }

  /** `initialize_board`: the opening position. */
  function InitialBoard(): (r: Board)
    ensures r[3][3] == Square(Full, White) && r[4][4] == Square(Full, White)
    ensures r[3][4] == Square(Full, Black) && r[4][3] == Square(Full, Black)
    ensures forall x, y :: InBounds(x, y) && !(3 <= x <= 4 && 3 <= y <= 4) ==> r[x][y] == Square(Empty, White)
  {
    seq(BoardSize, i requires 0 <= i < BoardSize =>
      seq(BoardSize, j requires 0 <= j < BoardSize => InitialSquare(i, j)))
  }

  /** `get_players_color`: the colour of the player whose turn it is. */
  function PlayerColor(turn: Turn, players: PlayersColor): Color
  {
    if turn == Player1 then players.player1 else players.player2
  }

  function Mover(g: GameView): Color
  {
    PlayerColor(g.turn, g.players)
  }

  /** `switch_player`. */
  function Switch(t: Turn): (r: Turn)
    ensures r != t
  {
    if t == Player1 then Player2 else Player1
  }

  lemma SwitchInvolution(t: Turn)
    ensures Switch(Switch(t)) == t
  {
  }

  /** When the two players hold different colours, switching the turn switches the colour to move. */
  lemma SwitchChangesMover(t: Turn, players: PlayersColor)
    requires players.player1 != players.player2
    ensures PlayerColor(Switch(t), players) == Opposite(PlayerColor(t, players))
  {
  }

  /** The board after the mover's disc is put on the move square. */
  function Placed(g: GameView, mv: Move): Board
  {
    Set(g.board, mv.row, mv.column, Square(Full, Mover(g)))
  }

  /** The board after the captures of the move in all eight directions. */
  function Played(g: GameView, mv: Move): Board
  {
    ReverseFrom(Placed(g, mv), Mover(g), mv.row, mv.column, North)
  }

  /** `transform_board`: place the disc, flip the captured discs, mark the opponent's moves. */
  function Transformed(g: GameView, mv: Move): GameView
  {
    g.(board := Marked(Played(g, mv), Opposite(Mover(g))))
  }

  /**
   * A move on a non-full square fills it with the mover's colour, adds exactly
   * one full square, never empties one, changes other discs only from the
   * opponent's colour to the mover's, and leaves the marks of the opponent.
   */
  lemma TransformedProperties(g: GameView, mv: Move)
    requires g.board[mv.row][mv.column].status != Full
    ensures var r := Transformed(g, mv);
      && r.board[mv.row][mv.column] == Square(Full, Mover(g))
      && FullCount(r.board) == FullCount(g.board) + 1
      && (forall x, y :: InBounds(x, y) && g.board[x][y].status == Full ==>
            r.board[x][y].status == Full &&
            (r.board[x][y].color == g.board[x][y].color ||
             (g.board[x][y].color == Opposite(Mover(g)) && r.board[x][y].color == Mover(g))))
      && Marked(r.board, Opposite(Mover(g))) == r.board
      && r.turn == g.turn && r.state == g.state && r.players == g.players
  {
    var c := Mover(g);
    var placed := Placed(g, mv);
    var played := Played(g, mv);
    var r := Transformed(g, mv);
    assert OnlyCaptures(placed, played, c);
    forall x, y | InBounds(x, y)
      ensures r.board[x][y].status == Full <==> played[x][y].status == Full
      ensures played[x][y].status == placed[x][y].status
    {
    }
    FullCountOneMore(g.board, r.board, mv.row, mv.column);
    MarkedIdempotent(played, Opposite(c));
  }

  /**
   * `turn_transition` (and the running branch of `transform_game`): after the
   * move, the turn passes to the opponent if the opponent has a valid square;
   * otherwise the marks are recomputed for the same mover, and if there are
   * still none the game is over.
   */
  function TurnTransition(g: GameView, mv: Move): GameView
  {
    HandOver(Transformed(g, mv))
  }

  /**
   * What `turn_transition` does once the board is transformed: switch the turn,
   * or mark the same mover's moves and end the game if there are none.
   */
  function HandOver(t: GameView): GameView
  {
    if HasValid(t.board) then t.(turn := Switch(t.turn))
    else
      var p := t.(board := Marked(t.board, Mover(t)));
      if !HasValid(p.board) then p.(state := GameOver) else p
  }

  /**
   * The turn step: the turn switches exactly when the opponent can move;
   * otherwise the mover passes the opponent's turn and keeps marks of their
   * own; the game ends exactly when neither colour has a valid square.
   */
  lemma TurnTransitionStep(g: GameView, mv: Move)
    ensures var r := TurnTransition(g, mv);
      var c := Mover(g);
      var p := Played(g, mv);
      && (HasValid(Marked(p, Opposite(c))) ==>
            r.turn == Switch(g.turn) && r.board == Marked(p, Opposite(c)) && r.state == g.state)
      && (!HasValid(Marked(p, Opposite(c))) ==> r.turn == g.turn && r.board == Marked(p, c))
      && (r.state == GameOver <==>
            g.state == GameOver || (!HasValid(Marked(p, Opposite(c))) && !HasValid(Marked(p, c))))
      && r.players == g.players
      && (r.state == g.state || r.state == GameOver)
  {
    RemarkOverrides(Played(g, mv), Opposite(Mover(g)), Mover(g));
  }

  /** With two different colours, the marks after a turn step are always those of the side now to move. */
  lemma TurnTransitionMarksMover(g: GameView, mv: Move)
    requires g.players.player1 != g.players.player2
    ensures var r := TurnTransition(g, mv);
      r.board == Marked(Played(g, mv), Mover(r))
  {
    TurnTransitionStep(g, mv);
    SwitchChangesMover(g.turn, g.players);
  }

  /**
   * The answers `main_menu_function` collects: who moves first and the colour
   * of player 1; player 2 always gets the other colour. A random choice in
   * the menu is one of these answers too.
   */
  datatype MenuChoice = MenuChoice(first: Turn, player1: Color)

  /** The menu's answers written into the game record. */
  function Chosen(g: GameView, m: MenuChoice): GameView
  {
    g.(turn := m.first, players := PlayersColor(m.player1, Opposite(m.player1)))
  }

  /** The main-menu branch of `transform_game`: the menu's answers, a fresh board marked for the first mover, and the game running. */
  function StartMatch(g: GameView, m: MenuChoice): GameView
  {
    var h := Chosen(g, m);
    h.(board := Marked(InitialBoard(), Mover(h)), state := Running)
  }

  /**
   * A new match holds exactly the four discs of the opening position, its
   * players have opposite colours, the chosen player moves first, and the
   * board is marked for that player.
   */
  lemma StartMatchPosition(g: GameView, m: MenuChoice)
    ensures var r := StartMatch(g, m);
      && r.state == Running
      && r.turn == m.first && r.players.player1 == m.player1
      && r.players.player1 != r.players.player2
      && SameDiscs(r.board, InitialBoard())
      && (forall x, y :: InBounds(x, y) ==> (r.board[x][y].status == Full <==> 3 <= x <= 4 && 3 <= y <= 4))
      && Marked(r.board, Mover(r)) == r.board
  {
    var b := InitialBoard();
    var h := Chosen(g, m);
    var r := StartMatch(g, m);
    assert r.board == Marked(b, Mover(h));
    MarkedKeepsDiscs(b, Mover(h));
    InitialFullSquares();
    MarkedIdempotent(b, Mover(h));
  }

  lemma InitialFullSquares()
    ensures forall x, y :: InBounds(x, y) ==> (InitialBoard()[x][y].status == Full <==> 3 <= x <= 4 && 3 <= y <= 4)
  {
  }

  /**
   * One round of `transform_game`, the move standing for the input the round
   * reads: a finished game returns to the menu, the menu starts a match, a
   * running game takes one turn step.
   */
  function GameRound(g: GameView, m: MenuChoice, mv: Move): GameView
  {
    match g.state
    case GameOver => g.(state := MainMenu)
    case MainMenu => StartMatch(g, m)
    case Running => TurnTransition(g, mv)
  }

  /** A finished game goes back to the menu untouched, the menu starts a running match with the chosen colours, and a running game stays running or ends. */
  lemma GameRoundPhases(g: GameView, m: MenuChoice, mv: Move)
    ensures g.state == GameOver ==> GameRound(g, m, mv).state == MainMenu && GameRound(g, m, mv).board == g.board
    ensures g.state == MainMenu ==> GameRound(g, m, mv).state == Running
    ensures g.state == Running ==> GameRound(g, m, mv).state == Running || GameRound(g, m, mv).state == GameOver
    ensures GameRound(g, m, mv).players == if g.state == MainMenu then PlayersColor(m.player1, Opposite(m.player1)) else g.players
  {
    match g.state
    case GameOver =>
    case MainMenu =>
    case Running =>
      assert GameRound(g, m, mv) == TurnTransition(g, mv);
      TurnTransitionStep(g, mv);
  }

  /**
   * `transform_game` as a whole: rounds are played until a finished game
   * returns to the menu. The menu's answers are `m`; the running rounds read
   * their moves from `moves`; when the moves run out the game is left as it
   * stands.
   */
  function Play(g: GameView, m: MenuChoice, moves: seq<Move>): GameView
    decreases |moves|, if g.state == MainMenu then 1 else 0
  {
    match g.state
    case GameOver => g.(state := MainMenu)
    case MainMenu => Play(StartMatch(g, m), m, moves)
    case Running => if moves == [] then g else Play(TurnTransition(g, moves[0]), m, moves[1..])
  }

  /**
   * A played game never stops in the finished phase: either it went back to the
   * menu after the game ended, or it is still running because the moves ran
   * out. Each running round is one `GameRound`; the players' colours are the
   * menu's when play starts at the menu, and are never changed otherwise.
   */
  lemma {:induction false} PlayPhases(g: GameView, m: MenuChoice, moves: seq<Move>)
    decreases |moves|, if g.state == MainMenu then 1 else 0
    ensures Play(g, m, moves).state == MainMenu || Play(g, m, moves).state == Running
    ensures Play(g, m, moves).state == Running ==> g.state != GameOver
    ensures Play(g, m, moves).players == if g.state == MainMenu then PlayersColor(m.player1, Opposite(m.player1)) else g.players
    ensures g.state == Running && moves != [] ==> Play(g, m, moves) == Play(GameRound(g, m, moves[0]), m, moves[1..])
  {
    match g.state
    case GameOver =>
    case MainMenu =>
      PlayPhases(StartMatch(g, m), m, moves);
    case Running =>
      if moves != [] {
        TurnTransitionStep(g, moves[0]);
        PlayPhases(TurnTransition(g, moves[0]), m, moves[1..]);
      }
  }

  /**
   * The game invariant `transform_game` keeps: once a match has started from
   * the menu, the two players have opposite colours, and a running game's
   * board is marked for the side to move.
   */
  lemma {:induction false} PlayMarksMover(g: GameView, m: MenuChoice, moves: seq<Move>)
    requires g.state == MainMenu || g.players.player1 != g.players.player2
    requires g.state == Running ==> Marked(g.board, Mover(g)) == g.board
    decreases |moves|, if g.state == MainMenu then 1 else 0
    ensures var r := Play(g, m, moves);
      && r.players.player1 != r.players.player2
      && (r.state == Running ==> Marked(r.board, Mover(r)) == r.board)
  {
    match g.state
    case GameOver =>
    case MainMenu =>
      StartMatchPosition(g, m);
      PlayMarksMover(StartMatch(g, m), m, moves);
    case Running =>
      if moves != [] {
        var r := TurnTransition(g, moves[0]);
        TurnTransitionStep(g, moves[0]);
        TurnTransitionMarksMover(g, moves[0]);
        MarkedIdempotent(Played(g, moves[0]), Mover(r));
        PlayMarksMover(r, m, moves[1..]);
      }
  }
}
