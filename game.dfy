/**
 * The game object of src/logic/logic.c as the source keeps it: a `Game`
 * record whose 8x8 board is updated in place by the move applier, the marker
 * and the turn logic. Each method walks the board the way its C function
 * does (the tail recursions become loops) and is proved to leave the board
 * that the functions of `Rules`, `Legality` and `Capture` describe.
 */
module Engine {
  import opened Othello
  import opened Legality
  import opened Capture
  import opened Counting
  import opened Rules
  import opened Codec

  /** Whether (x, y) comes before (i, j) in row-major order. */
  predicate Before(x: int, y: int, i: int, j: int)
  {
    x < i || (x == i && y < j)
  }

  class Game {
    /** The squares; the array itself never changes, its contents do. */
    const board: array2<Square>
    /** The contents of `board` as a value. */
    ghost var model: Board
    var state: Phase
    var turn: Turn
    var players: PlayersColor

    ghost predicate Valid()
      reads this, board
    {
      && board.Length0 == BoardSize && board.Length1 == BoardSize
      && forall x, y :: InBounds(x, y) ==> board[x, y] == model[x][y]
    }

    /** The game as a value, for the functions that specify it. */
    ghost function View(): GameView
      reads this
    {
      GameView(model, state, turn, players)
    }

    /** A game at the main menu, its board holding the opening position. */
    constructor (turn: Turn, players: PlayersColor)
      ensures Valid() && fresh(board)
      ensures View() == GameView(InitialBoard(), MainMenu, turn, players)
    {
      board := new Square[BoardSize, BoardSize]((i, j) => Square(Empty, White));
      this.turn := turn;
      this.players := players;
      state := MainMenu;
      model := InitialBoard();
      new;
      InitializeBoard();
    }

    /** `initialize_board`: the opening position, written square by square up to (7, 8). */
    method InitializeBoard()
      requires board.Length0 == BoardSize && board.Length1 == BoardSize
      modifies board, this`model
      ensures Valid() && model == InitialBoard()
    {
      var i, j := 0, 0;
      while !(i == BoardSize - 1 && j == BoardSize)
        invariant 0 <= i < BoardSize && 0 <= j <= BoardSize
        invariant forall x, y :: InBounds(x, y) && Before(x, y, i, j) ==> board[x, y] == InitialSquare(x, y)
        decreases BoardSize - i, BoardSize - j
      {
        if j == BoardSize {
          i, j := i + 1, 0;
        } else {
          if 3 <= i <= 4 && 3 <= j <= 4 {
            board[i, j] := Square(Full, if (i + j) % 2 == 0 then White else Black);
          } else {
            board[i, j] := Square(Empty, White);
          }
          j := j + 1;
        }
      }
      model := InitialBoard();
    }

    /** `delete_all_valid_moves`: every valid square becomes empty, nothing else changes. */
    method DeleteAllValidMoves()
      requires Valid()
      modifies board, this`model
      ensures Valid() && model == Cleared(old(model))
    {
      ghost var b0 := model;
      var i, j := 0, 0;
      while i != BoardSize
        invariant WalkPosition(i, j)
        invariant forall x, y :: InBounds(x, y) ==>
          board[x, y] == if Before(x, y, i, j) && b0[x][y].status == Status.Valid then b0[x][y].(status := Empty) else b0[x][y]
        decreases BoardSize - i, BoardSize - j
      {
        if j == BoardSize {
          i, j := i + 1, 0;
        } else {
          if board[i, j].status == Status.Valid {
            board[i, j] := board[i, j].(status := Empty);
          }
          j := j + 1;
        }
      }
      model := Cleared(b0);
      ClearedAt(b0);
    }

    /**
     * `mark_valid_moves_array`: the pattern automaton along `d` from (i, j),
     * marking the first non-full square reached in the state
     * `SameAndOppositeColor` and stopping there.
     */
    method MarkValidMovesArray(c: Color, d: Direction, i0: int, j0: int, previous0: Pattern)
      requires Valid() && -1 <= i0 <= BoardSize && -1 <= j0 <= BoardSize
      modifies board, this`model
      ensures Valid() && model == ScanLine(old(model), c, d, i0, j0, previous0)
    {
      var i, j, previous := i0, j0, previous0;
      while true
        invariant Valid() && -1 <= i <= BoardSize && -1 <= j <= BoardSize
        invariant ScanLine(model, c, d, i, j, previous) == ScanLine(old(model), c, d, i0, j0, previous0)
        decreases Steps(d, i, j)
      {
        if i == BoardSize || j == BoardSize || i == -1 || j == -1 {
          return;
        }
        if board[i, j].status != Full && previous == SameAndOppositeColor {
          board[i, j] := board[i, j].(status := Status.Valid);
          model := Set(model, i, j, model[i][j].(status := Status.Valid));
          return;
        }
        if board[i, j].status != Full {
          previous := EmptyPattern;
        } else if board[i, j].status == Full && board[i, j].color == c {
          previous := SameColor;
        } else if board[i, j].status == Full && board[i, j].color != c && previous == SameColor {
          previous := SameAndOppositeColor;
        }
        StepsDecrease(d, i, j);
        i, j := Step(d, i, j).0, Step(d, i, j).1;
      }
    }
    /** `mark_valid_moves_all_arrays`: every line of direction `d` from the one starting at (i, j) on. */
    method MarkValidMovesAllArrays(c: Color, d: Direction, i0: int, j0: int)
      requires Valid() && InBounds(i0, j0)
      modifies board, this`model
      ensures Valid() && model == ScanLines(old(model), c, d, i0, j0)
    {
      var i, j := i0, j0;
      while true
        invariant Valid() && InBounds(i, j)
        invariant ScanLines(model, c, d, i, j) == ScanLines(old(model), c, d, i0, j0)
        decreases LineMeasure(d, i, j)
      {
        MarkValidMovesArray(c, d, i, j, EmptyPattern);
        NextArrayDecreases(d, i, j);
        var (more, ni, nj) := NextArray(d, i, j);
        if !more {
          return;
        }
        i, j := ni, nj;
      }
    }

    /** `mark_valid_moves_all_directions`: the lines of `d` and of every later direction. */
    method MarkValidMovesAllDirections(c: Color, d0: Direction)
      requires Valid()
      modifies board, this`model
      ensures Valid() && model == ScanDirections(old(model), c, d0)
    {
      var d := d0;
      while true
        invariant Valid()
        invariant ScanDirections(model, c, d) == ScanDirections(old(model), c, d0)
        decreases 7 - Ordinal(d)
      {
        var (i, j) := StartIndices(d);
        MarkValidMovesAllArrays(c, d, i, j);
        if d == NorthWest {
          return;
        }
        d := Succ(d);
      }
    }

    /** `mark_valid_moves`: clear the old marks, then mark the squares where `c` can move. */
    method MarkValidMoves(c: Color)
      requires Valid()
      modifies board, this`model
      ensures Valid() && model == Marked(old(model), c)
    {
      DeleteAllValidMoves();
      MarkValidMovesAllDirections(c, North);
    }

    /** `change_discs_color`: the disc at (i, j) takes the other colour, nothing else changes. */
    method ChangeDiscsColor(i: int, j: int)
      requires Valid() && InBounds(i, j)
      modifies board, this`model
      ensures Valid() && model == Set(old(model), i, j, old(model)[i][j].(color := Opposite(old(model)[i][j].color)))
    {
      board[i, j] := board[i, j].(color := Opposite(board[i, j].color));
      model := Set(model, i, j, model[i][j].(color := Opposite(model[i][j].color)));
    }

    /**
     * `reverse_color_in_array`: walk from the move square along `d0`; at the
     * first disc of colour `c` turn round (`reverse_direction`) and flip every
     * disc met on the way back to the move square (`change_discs_color`).
     */
    method ReverseColorInArray(mv: Move, c: Color, d0: Direction)
      requires Valid()
      modifies board, this`model
      ensures Valid() && model == ReverseRay(old(model), c, d0, mv.row, mv.column)
    {
      ghost var target := ReverseWalk(model, c, mv, d0, false, mv.row, mv.column);
      ReverseWalkRay(model, c, mv, d0);
      var d, goingBack := d0, false;
      var i, j := mv.row as int, mv.column as int;
      while true
        invariant Valid() && -1 <= i <= BoardSize && -1 <= j <= BoardSize
        invariant ReverseWalk(model, c, mv, d, goingBack, i, j) == target
        decreases if goingBack then 0 else 1, Steps(d, i, j)
      {
        if i == BoardSize || j == BoardSize || i == -1 || j == -1 {
          return;
        }
        var square := board[i, j];
        if (goingBack && mv.row == i && mv.column == j) || square.status != Full {
          return;
        }
        if !goingBack && square.status == Full && square.color == c && (mv.row != i || mv.column != j) {
          ReverseWalkTurn(model, c, mv, d, i, j);
          d, goingBack := Reverse(d), true;
        } else if goingBack && square.color != c {
          ReverseWalkFlip(model, c, mv, d, i, j);
          ChangeDiscsColor(i, j);
        } else if goingBack {
          ReverseWalkBackOn(model, c, mv, d, i, j);
        } else {
          ReverseWalkOn(model, c, mv, d, i, j);
        }
        StepsDecrease(d, i, j);
        i, j := Step(d, i, j).0, Step(d, i, j).1;
      }
    }

    /** `reverse_color_all_directions`: the captures along `d` and every later direction, in order. */
    method ReverseColorAllDirections(mv: Move, c: Color, d0: Direction)
      requires Valid()
      modifies board, this`model
      ensures Valid() && model == ReverseFrom(old(model), c, mv.row, mv.column, d0)
    {
      var d := d0;
      while true
        invariant Valid()
        invariant ReverseFrom(model, c, mv.row, mv.column, d) == ReverseFrom(old(model), c, mv.row, mv.column, d0)
        decreases 7 - Ordinal(d)
      {
        ReverseColorInArray(mv, c, d);
        if d == NorthWest {
          return;
        }
        d := Succ(d);
      }
    }

    /** `reverse_color`: the captures of a disc of colour `c` put on the move square, in all eight directions. */
    method ReverseColor(mv: Move, c: Color)
      requires Valid()
      modifies board, this`model
      ensures Valid() && model == ReverseFrom(old(model), c, mv.row, mv.column, North)
    {
      ReverseColorAllDirections(mv, c, North);
    }

    /** `transform_board`: put the mover's disc on the move square, flip the captures, mark the opponent's moves. */
    method TransformBoard(mv: Move)
      requires Valid()
      modifies board, this`model
      ensures Valid() && View() == Transformed(old(View()), mv)
    {
      ghost var g0 := View();
      var color := PlayerColor(turn, players);
      board[mv.row, mv.column] := board[mv.row, mv.column].(status := Full, color := color);
      model := Set(model, mv.row, mv.column, Square(Full, color));
      assert model == Placed(g0, mv);
      ReverseColor(mv, color);
      assert model == Played(g0, mv);
      MarkValidMoves(Opposite(color));
    }

    /** `check_for_valid_moves`: the row-major search for a square marked valid. */
    method CheckForValidMoves() returns (found: bool)
      requires Valid()
      ensures found == HasValid(model)
    {
      var i, j := 0, 0;
      while true
        invariant WalkPosition(i, j)
        invariant forall x, y :: InBounds(x, y) && Before(x, y, i, j) ==> model[x][y].status != Status.Valid
        decreases BoardSize - i, BoardSize - j
      {
        if i == BoardSize {
          return false;
        }
        if j == BoardSize {
          i, j := i + 1, 0;
        } else if board[i, j].status == Status.Valid {
          return true;
        } else {
          j := j + 1;
        }
      }
    }

    /** `switch_player`. */
    method SwitchPlayer()
      modifies this`turn
      ensures turn == Switch(old(turn))
    {
      if turn == Player1 {
        turn := Player2;
      } else {
        turn := Player1;
      }
    }

    /** `turn_transition`: play the move, then hand the turn over, or pass it, or end the game. */
    method TurnTransition(mv: Move)
      requires Valid()
      modifies board, this`model, this`turn, this`state
      ensures Valid() && View() == Rules.TurnTransition(old(View()), mv)
    {
      TransformBoard(mv);
      ghost var t := View();
      var opponentCanMove := CheckForValidMoves();
      if opponentCanMove {
        SwitchPlayer();
        assert View() == HandOver(t);
      } else {
        MarkValidMoves(PlayerColor(turn, players));
        var moverCanMove := CheckForValidMoves();
        if !moverCanMove {
          state := GameOver;
        }
        assert View() == HandOver(t);
      }
    }

    /**
     * `transform_game`: rounds until a finished game returns to the menu. The
     * answers `main_menu_function` collects are given as `menu`, and the moves
     * the running rounds read as `moves`; when the moves run out the game is
     * left as it stands.
     */
    method TransformGame(menu: MenuChoice, moves: seq<Move>)
      requires Valid()
      modifies board, this`model, this`turn, this`state, this`players
      ensures Valid() && View() == Play(old(View()), menu, moves)
    {
      var rest := moves;
      while true
        invariant Valid()
        invariant Play(View(), menu, rest) == Play(old(View()), menu, moves)
        decreases |rest|, if state == MainMenu then 1 else 0
      {
        if state == GameOver {
          state := MainMenu;
          return;
        } else if state == MainMenu {
          turn := menu.first;
          players := PlayersColor(menu.player1, Opposite(menu.player1));
          InitializeBoard();
          state := Running;
          MarkValidMoves(PlayerColor(turn, players));
        } else {
          if rest == [] {
            return;
          }
          TurnTransition(rest[0]);
          rest := rest[1..];
        }
      }
    }

    /** `get_game_score`: adds the white and the black discs of the board to the two counters. */
    method GetGameScore(white0: int, black0: int) returns (white: int, black: int)
      requires Valid()
      ensures white == white0 + Discs(model, White) && black == black0 + Discs(model, Black)
    {
      white, black := white0, black0;
      var i, j := 0, 0;
      while i != BoardSize
        invariant WalkPosition(i, j)
        invariant white == white0 + RowsDiscs(model[..i], White) + (if i < BoardSize then RowDiscs(model[i][..j], White) else 0)
        invariant black == black0 + RowsDiscs(model[..i], Black) + (if i < BoardSize then RowDiscs(model[i][..j], Black) else 0)
        decreases BoardSize - i, BoardSize - j
      {
        if j == BoardSize {
          assert model[..i + 1][..i] == model[..i] && model[i][..j] == model[i];
          i, j := i + 1, 0;
        } else {
          if board[i, j].status == Full {
            if board[i, j].color == White {
              white := white + 1;
            } else {
              black := black + 1;
            }
          }
          assert model[i][..j + 1][..j] == model[i][..j];
          j := j + 1;
        }
      }
      assert model[..BoardSize] == model;
    }

    /** The result `print_game_over` announces, from counters started at zero. */
    method Outcome() returns (r: Outcome)
      requires Valid()
      ensures r == GameOutcome(model)
    {
      var white, black := GetGameScore(0, 0);
      if black == white {
        return Draw;
      }
      r := Winner(if black > white then Black else White);
    }

    /**
     * `convert_board_to_string`: one character per square at position
     * 8 * i + j, the colour to move at 64 and the terminating NUL at 65.
     */
    method ConvertBoardToString(text: array<char>)
      requires Valid() && text.Length >= BoardSize * BoardSize + 2
      modifies text
      ensures text[..BoardSize * BoardSize + 1] == BoardString(View())
      ensures text[BoardSize * BoardSize + 1] == '\0'
      ensures text[BoardSize * BoardSize + 2..] == old(text[BoardSize * BoardSize + 2..])
    {
      var i, j := 0, 0;
      while i != BoardSize
        invariant WalkPosition(i, j)
        invariant forall k :: 0 <= k < i * BoardSize + j ==> text[k] == SquareChar(model[k / BoardSize][k % BoardSize])
        invariant forall k :: BoardSize * BoardSize + 2 <= k < text.Length ==> text[k] == old(text[k])
        decreases BoardSize - i, BoardSize - j
      {
        if j == BoardSize {
          i, j := i + 1, 0;
        } else {
          var c: char;
          if board[i, j].status == Empty {
            c := 'E';
          } else if board[i, j].status == Status.Valid {
            c := 'V';
          } else if board[i, j].color == White {
            c := 'W';
          } else {
            c := 'B';
          }
          assert (i * BoardSize + j) / BoardSize == i && (i * BoardSize + j) % BoardSize == j;
          text[i * BoardSize + j] := c;
          j := j + 1;
        }
      }
      text[i * BoardSize + j] := if PlayerColor(turn, players) == White then 'W' else 'B';
      text[i * BoardSize + j + 1] := '\0';
    }

    /** `Game game_copy = *game`: the whole game as a value. */
    method Snapshot() returns (s: GameView)
      requires Valid()
      ensures s == View()
    {
      var rows: seq<seq<Square>> := [];
      var i := 0;
      while i < BoardSize
        invariant 0 <= i <= BoardSize && rows == model[..i]
      {
        var row: seq<Square> := [];
        var j := 0;
        while j < BoardSize
          invariant 0 <= j <= BoardSize && row == model[i][..j]
        {
          row := row + [board[i, j]];
          j := j + 1;
        }
        assert row == model[i];
        assert model[..i + 1] == model[..i] + [model[i]];
        rows := rows + [row];
        i := i + 1;
      }
      s := GameView(rows, state, turn, players);
    }

    /** `*game = game_copy`: the board, phase and turn are set back to a saved game. */
    method Restore(s: GameView)
      requires board.Length0 == BoardSize && board.Length1 == BoardSize
      modifies board, this`model, this`state, this`turn, this`players
      ensures Valid() && View() == s
    {
      var i := 0;
      while i < BoardSize
        invariant 0 <= i <= BoardSize
        invariant forall x, y :: 0 <= x < i && 0 <= y < BoardSize ==> board[x, y] == s.board[x][y]
      {
        var j := 0;
        while j < BoardSize
          invariant 0 <= j <= BoardSize
          invariant forall x, y :: 0 <= x < i && 0 <= y < BoardSize ==> board[x, y] == s.board[x][y]
          invariant forall y :: 0 <= y < j ==> board[i, y] == s.board[i][y]
        {
          board[i, j] := s.board[i][j];
          j := j + 1;
        }
        i := i + 1;
      }
      model, state, turn, players := s.board, s.state, s.turn, s.players;
    }
  }
}
