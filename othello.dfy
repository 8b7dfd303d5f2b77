/**
 * The board model shared by the rules engine and the search: squares, colours,
 * the 8x8 board as a value, moves, turns, the game phase, and the eight
 * directions with their index arithmetic.
 */
module Othello {

  const BoardSize: int := 8

  datatype Option<T> = None | Some(value: T)

  /** A square is empty, marked as a legal target for the side to move, or holds a disc. */
  datatype Status = Empty | Valid | Full

  /** Disc colours; `White` is 0 and `Black` is 1 in the source's enumeration. */
  datatype Color = White | Black

  /** The colour field is only meaningful when the status is `Full`. */
  datatype Square = Square(status: Status, color: Color)

  /** The C expression `!color` on the two-valued colour enumeration. */
  function Opposite(c: Color): (r: Color)
    ensures r != c
  {
    if c == White then Black else White
  }

  /** The colour a flip produces: white becomes black and every other colour becomes white. */
  function Flipped(s: Square): (r: Square)
    ensures r.status == s.status && r.color == Opposite(s.color)
  {
    s.(color := if s.color == White then Black else White)
  }

  /** An 8x8 board, row-major: `b[row][column]`. */
  type Board = b: seq<seq<Square>> | |b| == BoardSize && forall i :: 0 <= i < BoardSize ==> |b[i]| == BoardSize
    witness seq(8, _ => seq(8, _ => Square(Empty, White)))

  type Index = i: int | 0 <= i < BoardSize

  datatype Move = Move(column: Index, row: Index)

  datatype Turn = Player1 | Player2

  datatype PlayersColor = PlayersColor(player1: Color, player2: Color)

  datatype Phase = MainMenu | Running | GameOver

  /** The value of a whole game record: what a struct copy of the game holds. */
  datatype GameView = GameView(board: Board, state: Phase, turn: Turn, players: PlayersColor)

  predicate InBounds(i: int, j: int)
  {
    0 <= i < BoardSize && 0 <= j < BoardSize
  }

  /** The board with square (i, j) replaced by `s`. */
  function Set(b: Board, i: int, j: int, s: Square): (r: Board)
    requires InBounds(i, j)
    ensures r[i][j] == s
    ensures forall x, y :: InBounds(x, y) && (x != i || y != j) ==> r[x][y] == b[x][y]
  {
    b[i := b[i][j := s]]
  }

  /** Two boards are equal when they agree on every square. */
  lemma BoardExtensionality(a: Board, b: Board)
    requires forall x, y :: InBounds(x, y) ==> a[x][y] == b[x][y]
    ensures a == b
  {
    forall x | 0 <= x < BoardSize
      ensures a[x] == b[x]
    {
      assert forall y :: 0 <= y < BoardSize ==> a[x][y] == b[x][y];
    }
  }

  /** The scan and capture directions, in the order of the source's enumeration. */
  datatype Direction = North | NorthEast | East | SouthEast | South | SouthWest | West | NorthWest

  function Ordinal(d: Direction): (r: nat)
    ensures r < 8
  {
    match d
    case North => 0
    case NorthEast => 1
    case East => 2
    case SouthEast => 3
    case South => 4
    case SouthWest => 5
    case West => 6
    case NorthWest => 7
  }

  /** The direction after `d` in the enumeration (the source's `++dir`). */
  function Succ(d: Direction): (r: Direction)
    requires d != NorthWest
    ensures Ordinal(r) == Ordinal(d) + 1
  {
    match d
    case North => NorthEast
    case NorthEast => East
    case East => SouthEast
    case SouthEast => South
    case South => SouthWest
    case SouthWest => West
    case West => NorthWest
  }

  /** The direction pointing the other way: `(dir + 4) % 8`. */
  function Reverse(d: Direction): (r: Direction)
    ensures Ordinal(r) == (Ordinal(d) + 4) % 8
  {
    match d
    case North => South
    case NorthEast => SouthWest
    case East => West
    case SouthEast => NorthWest
    case South => North
    case SouthWest => NorthEast
    case West => East
    case NorthWest => SouthEast
  }

  /** One step along `d`; north decreases the row, east increases the column. */
  function Step(d: Direction, i: int, j: int): (int, int)
  {
    match d
    case North => (i - 1, j)
    case NorthEast => (i - 1, j + 1)
    case East => (i, j + 1)
    case SouthEast => (i + 1, j + 1)
    case South => (i + 1, j)
    case SouthWest => (i + 1, j - 1)
    case West => (i, j - 1)
    case NorthWest => (i - 1, j - 1)
  }

  /** A termination measure: a bound on how many steps along `d` stay on the board. */
  function Steps(d: Direction, i: int, j: int): (r: nat)
    ensures InBounds(i, j) ==> 0 < r
  {
    if !InBounds(i, j) then 0
    else
      match d
      case North => i + 1
      case NorthEast => (i + 1) + (8 - j)
      case East => 8 - j
      case SouthEast => (8 - i) + (8 - j)
      case South => 8 - i
      case SouthWest => (8 - i) + (j + 1)
      case West => j + 1
      case NorthWest => (i + 1) + (j + 1)
  }

  /** A step from a square of the board stays within one square of it and uses up part of the measure. */
  lemma StepsDecrease(d: Direction, i: int, j: int)
    requires InBounds(i, j)
    ensures -1 <= Step(d, i, j).0 <= BoardSize && -1 <= Step(d, i, j).1 <= BoardSize
    ensures Steps(d, Step(d, i, j).0, Step(d, i, j).1) < Steps(d, i, j)
  {
  }

  /** A step along `d` followed by a step along its reverse comes back. */
  lemma StepBack(d: Direction, i: int, j: int)
    ensures Step(Reverse(d), Step(d, i, j).0, Step(d, i, j).1) == (i, j)
  {
  }

  /** The square `t` steps from (i, j) along `d`. */
  function Ray(d: Direction, i: int, j: int, t: int): (int, int)
  {
    match d
    case North => (i - t, j)
    case NorthEast => (i - t, j + t)
    case East => (i, j + t)
    case SouthEast => (i + t, j + t)
    case South => (i + t, j)
    case SouthWest => (i + t, j - t)
    case West => (i, j - t)
    case NorthWest => (i - t, j - t)
  }

  lemma RayStep(d: Direction, i: int, j: int, t: int)
    ensures Ray(d, i, j, 0) == (i, j)
    ensures Step(d, Ray(d, i, j, t).0, Ray(d, i, j, t).1) == Ray(d, i, j, t + 1)
    ensures Step(Reverse(d), Ray(d, i, j, t + 1).0, Ray(d, i, j, t + 1).1) == Ray(d, i, j, t)
  {
  }

  /** Distinct distances along a ray give distinct squares. */
  lemma RayInjective(d: Direction, i: int, j: int, s: int, t: int)
    requires s != t
    ensures Ray(d, i, j, s) != Ray(d, i, j, t)
  {
  }

  /** How far (x, y) lies from (i, j) along `d`, or -1 when it is not on that ray. */
  function RayIndex(d: Direction, i: int, j: int, x: int, y: int): (t: int)
    ensures t >= -1
    ensures t >= 0 ==> Ray(d, i, j, t) == (x, y)
    ensures forall s :: s >= 0 && Ray(d, i, j, s) == (x, y) ==> t == s
  {
    match d
    case North => if y == j && x <= i then i - x else -1
    case NorthEast => if i - x == y - j && y >= j then y - j else -1
    case East => if x == i && y >= j then y - j else -1
    case SouthEast => if x - i == y - j && y >= j then y - j else -1
    case South => if y == j && x >= i then x - i else -1
    case SouthWest => if x - i == j - y && x >= i then x - i else -1
    case West => if x == i && y <= j then j - y else -1
    case NorthWest => if i - x == j - y && x <= i then i - x else -1
  }
}
