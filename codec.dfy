/**
 * The two text codecs of src/logic/logic.c: the two-character move code
 * exchanged with an opposing program (written by `save_move_to_file`, read by
 * `get_opponents_cpu_move_from_file`, with "PASO" for a skipped turn), and the
 * 65-character board string of `convert_board_to_string`.
 */
module Codec {
  import opened Othello
  import opened Rules

  /** The move code: column letter 'A'..'H', then row digit '1'..'8'. */
  function EncodeMove(m: Move): (r: seq<char>)
    ensures |r| == 2 && 'A' <= r[0] <= 'H' && '1' <= r[1] <= '8'
  {
    [(m.column + 'A' as int) as char, (m.row + '1' as int) as char]
  }

  /** The word written instead of a move code when a turn is skipped. */
  const PassWord: seq<char> := "PASO"

  datatype Decoded = Pass | Coordinates(move: Move) | Malformed

  /** What `fgets` stores with room for `room` characters: it reads until the room is full, a newline has been read, or the input ends. */
  function FgetsLine(contents: seq<char>, room: nat): (r: seq<char>)
    ensures |r| <= room && r <= contents
    ensures forall k :: 0 <= k < |r| - 1 ==> r[k] != '\n'
    ensures |r| == room || r == contents || (|r| > 0 && r[|r| - 1] == '\n')
  {
    if room == 0 || contents == [] then []
    else if contents[0] == '\n' then [contents[0]]
    else [contents[0]] + FgetsLine(contents[1..], room - 1)
  }

  /**
   * Reading the opponent's file: the first four characters (a five-byte buffer)
   * are compared with "PASO"; otherwise the first two must be a column letter
   * and a row digit. A line shorter than two characters reads the terminating
   * NUL as its second character and is rejected.
   */
  function DecodeMove(contents: seq<char>): Decoded
  {
    var line := FgetsLine(contents, 4);
    if line == PassWord then Pass
    else if |line| < 2 then Malformed
    else if 'A' <= line[0] <= 'H' && '1' <= line[1] <= '8' then
      Coordinates(Move(line[0] as int - 'A' as int, line[1] as int - '1' as int))
    else Malformed
  }

  /** A written move code reads back as the same move, whatever follows it in the file. */
  lemma DecodeEncode(m: Move, rest: seq<char>)
    ensures DecodeMove(EncodeMove(m) + rest) == Coordinates(m)
  {
    var s := EncodeMove(m) + rest;
    var line := FgetsLine(s, 4);
    assert line[..2] == s[..2] by {
      assert s[0] != '\n' && s[1] != '\n';
      assert FgetsLine(s, 4) == [s[0]] + FgetsLine(s[1..], 3);
      assert FgetsLine(s[1..], 3) == [s[1]] + FgetsLine(s[2..], 2);
    }
    assert line != PassWord by {
      assert line[1] != PassWord[1];
    }
  }

  /** A decoded move is exactly what its two characters encode, and those are in range. */
  lemma EncodeDecode(contents: seq<char>)
    requires DecodeMove(contents).Coordinates?
    ensures |contents| >= 2 && EncodeMove(DecodeMove(contents).move) == contents[..2]
  {
    var line := FgetsLine(contents, 4);
    assert line[..2] == contents[..2];
  }

  /** "PASO" is a skipped turn however the file goes on, and no move code reads as one. */
  lemma PassWordIsSentinel(m: Move, rest: seq<char>)
    ensures DecodeMove(PassWord + rest) == Pass
    ensures DecodeMove(EncodeMove(m) + rest) != Pass
  {
    var s := PassWord + rest;
    assert FgetsLine(s, 4) == [s[0]] + FgetsLine(s[1..], 3);
    assert FgetsLine(s[1..], 3) == [s[1]] + FgetsLine(s[2..], 2);
    assert FgetsLine(s[2..], 2) == [s[2]] + FgetsLine(s[3..], 1);
    assert FgetsLine(s[3..], 1) == [s[3]] + FgetsLine(s[4..], 0);
    DecodeEncode(m, rest);
  }

  /** Characters outside 'A'..'H' or '1'..'8' in the first two places are rejected unless the line is "PASO". */
  lemma DecodeRejects(contents: seq<char>)
    requires |contents| >= 2 && FgetsLine(contents, 4) != PassWord
    requires !('A' <= contents[0] <= 'H') || !('1' <= contents[1] <= '8')
    ensures DecodeMove(contents) == Malformed
  {
    var line := FgetsLine(contents, 4);
    if contents[0] == '\n' {
      assert line == ['\n'];
    } else {
      assert line == [contents[0]] + FgetsLine(contents[1..], 3);
      if |line| >= 2 {
        assert line[1] == contents[1];
      }
    }
  }

  /** What the opponent's file does to the match: a skipped turn, a move to play, or the end of the match. */
  datatype Reading = Skipped | Accepted(move: Move) | Rejected

  /**
   * `get_opponents_cpu_move_from_file` once the file is open: "PASO" skips the
   * turn; a malformed code, or a move onto a square not marked valid, ends
   * the match; anything else is the opponent's move.
   */
  function ReadOpponentMove(b: Board, contents: seq<char>): Reading
  {
    match DecodeMove(contents)
    case Pass => Skipped
    case Malformed => Rejected
    case Coordinates(m) => if b[m.row][m.column].status == Valid then Accepted(m) else Rejected
  }

  /** A move written by `save_move_to_file` is accepted exactly when its square is marked valid. */
  lemma ReadWrittenMove(b: Board, m: Move, rest: seq<char>)
    ensures ReadOpponentMove(b, EncodeMove(m) + rest) ==
      if b[m.row][m.column].status == Valid then Accepted(m) else Rejected
  {
    DecodeEncode(m, rest);
  }

  /** A file written by `print_paso_to_file` skips the turn, whatever the board. */
  lemma ReadPassWord(b: Board, rest: seq<char>)
    ensures ReadOpponentMove(b, PassWord + rest) == Skipped
  {
    PassWordIsSentinel(Move(0, 0), rest);
  }

  /** An accepted move is what the first two characters of the file encode, onto a square marked valid. */
  lemma ReadAcceptedMove(b: Board, contents: seq<char>)
    requires ReadOpponentMove(b, contents).Accepted?
    ensures var m := ReadOpponentMove(b, contents).move;
      |contents| >= 2 && EncodeMove(m) == contents[..2] && b[m.row][m.column].status == Valid
  {
    EncodeDecode(contents);
  }

  function SquareChar(s: Square): char
  {
    match s.status
    case Empty => 'E'
    case Valid => 'V'
    case Full => if s.color == White then 'W' else 'B'
  }

  function ColorChar(c: Color): char
  {
    if c == White then 'W' else 'B'
  }

  /**
   * `convert_board_to_string`: one character per square in row-major order,
   * then the colour of the player to move.
   */
  function BoardString(g: GameView): (r: seq<char>)
    ensures |r| == BoardSize * BoardSize + 1
  {
    seq(BoardSize * BoardSize, k requires 0 <= k < BoardSize * BoardSize =>
      SquareChar(g.board[k / BoardSize][k % BoardSize])) + [ColorChar(Mover(g))]
  }

  /** The string determines every square's status, the colour of every disc and the colour to move. */
  lemma BoardStringDetermines(g: GameView, h: GameView)
    requires BoardString(g) == BoardString(h)
    ensures forall x, y :: InBounds(x, y) ==>
      g.board[x][y].status == h.board[x][y].status &&
      (g.board[x][y].status == Full ==> g.board[x][y].color == h.board[x][y].color)
    ensures Mover(g) == Mover(h)
  {
    forall x, y | InBounds(x, y)
      ensures g.board[x][y].status == h.board[x][y].status
      ensures g.board[x][y].status == Full ==> g.board[x][y].color == h.board[x][y].color
    {
      var k := x * BoardSize + y;
      assert k / BoardSize == x && k % BoardSize == y;
      assert BoardString(g)[k] == BoardString(h)[k];
    }
    assert BoardString(g)[64] == BoardString(h)[64];
  }
}
