/**
 * Disc counting from src/input_output/game_io.c: what `get_game_score` adds
 * to its two counters over the board, and the draw/winner decision of
 * `print_game_over`. The counters are specified row by row here; the walk
 * itself, square by square in row-major order, is `Game.GetGameScore`.
 */
module Counting {
  import opened Othello

  /** A position (i, j) of a row-major walk: a square, or a row end, or the end of the board. */
  predicate WalkPosition(i: int, j: int)
  {
    (0 <= i < BoardSize && 0 <= j <= BoardSize) || (i == BoardSize && j == 0)
  }

  /** Whether (x, y) is at or after (i, j) in row-major order. */
  predicate AtOrAfter(x: int, y: int, i: int, j: int)
  {
    x > i || (x == i && y >= j)
  }

  /** What one square adds to the counter of colour `c`. */
  function DiscPoint(s: Square, c: Color): nat
  {
    if s.status == Full && s.color == c then 1 else 0
  }

  function FullPoint(s: Square): nat
  {
    if s.status == Full then 1 else 0
  }

  /** The discs of colour `c` in a row. */
  function RowDiscs(row: seq<Square>, c: Color): nat
  {
    if row == [] then 0 else RowDiscs(row[..|row| - 1], c) + DiscPoint(row[|row| - 1], c)
  }

  /** The full squares of a row. */
  function RowFull(row: seq<Square>): nat
  {
    if row == [] then 0 else RowFull(row[..|row| - 1]) + FullPoint(row[|row| - 1])
  }

  /** The discs of colour `c` in a sequence of rows. */
  function RowsDiscs(rows: seq<seq<Square>>, c: Color): nat
  {
    if rows == [] then 0 else RowsDiscs(rows[..|rows| - 1], c) + RowDiscs(rows[|rows| - 1], c)
  }

  /** The full squares in a sequence of rows. */
  function RowsFull(rows: seq<seq<Square>>): nat
  {
    if rows == [] then 0 else RowsFull(rows[..|rows| - 1]) + RowFull(rows[|rows| - 1])
  }

  /** What `get_game_score` adds to the counter of colour `c` over the whole board. */
  function Discs(b: Board, c: Color): nat
  {
    RowsDiscs(b, c)
  }

  /** The number of full squares of the board. */
  function FullCount(b: Board): nat
  {
    RowsFull(b)
  }

  /** Every full square of a row is counted once, for its own colour, and nothing else is counted. */
  lemma {:induction false} RowSplit(row: seq<Square>)
    ensures RowDiscs(row, White) + RowDiscs(row, Black) == RowFull(row) <= |row|
  {
    if row != [] {
      RowSplit(row[..|row| - 1]);
    }
  }

  lemma {:induction false} RowsSplit(rows: seq<seq<Square>>)
    requires forall k :: 0 <= k < |rows| ==> |rows[k]| == BoardSize
    ensures RowsDiscs(rows, White) + RowsDiscs(rows, Black) == RowsFull(rows) <= BoardSize * |rows|
  {
    if rows != [] {
      RowsSplit(rows[..|rows| - 1]);
      RowSplit(rows[|rows| - 1]);
    }
  }

  /** The two counters together gain the number of full squares, at most 64. */
  lemma DiscsSplit(b: Board)
    ensures Discs(b, White) + Discs(b, Black) == FullCount(b) <= 64
  {
    RowsSplit(b);
  }

  /** Two squares that hold the same disc, or no disc at all. */
  predicate SameDisc(s: Square, t: Square)
  {
    (s.status == Full <==> t.status == Full) && (s.status == Full ==> s.color == t.color)
  }

  lemma {:induction false} RowSame(u: seq<Square>, v: seq<Square>, c: Color)
    requires |u| == |v| && forall l :: 0 <= l < |u| ==> SameDisc(u[l], v[l])
    ensures RowDiscs(u, c) == RowDiscs(v, c) && RowFull(u) == RowFull(v)
  {
    if u != [] {
      RowSame(u[..|u| - 1], v[..|v| - 1], c);
    }
  }

  lemma {:induction false} RowsSame(u: seq<seq<Square>>, v: seq<seq<Square>>, c: Color)
    requires |u| == |v| && forall k :: 0 <= k < |u| ==> |u[k]| == |v[k]|
    requires forall k, l :: 0 <= k < |u| && 0 <= l < |u[k]| ==> SameDisc(u[k][l], v[k][l])
    ensures RowsDiscs(u, c) == RowsDiscs(v, c) && RowsFull(u) == RowsFull(v)
  {
    if u != [] {
      var n := |u| - 1;
      RowsSame(u[..n], v[..n], c);
      RowSame(u[n], v[n], c);
    }
  }

  /** The counters look only at discs: boards that hold the same discs count the same. */
  lemma DiscsIgnoreMarks(a: Board, b: Board, c: Color)
    requires forall x, y :: InBounds(x, y) ==> SameDisc(a[x][y], b[x][y])
    ensures Discs(a, c) == Discs(b, c) && FullCount(a) == FullCount(b)
  {
    RowsSame(a, b, c);
  }

  lemma {:induction false} RowFullSame(u: seq<Square>, v: seq<Square>)
    requires |u| == |v| && forall l :: 0 <= l < |u| ==> (u[l].status == Full <==> v[l].status == Full)
    ensures RowFull(u) == RowFull(v)
  {
    if u != [] {
      RowFullSame(u[..|u| - 1], v[..|v| - 1]);
    }
  }

  /** A row in which exactly one square becomes full has one more full square. */
  lemma {:induction false} RowFullOneMore(u: seq<Square>, v: seq<Square>, col: int)
    requires |u| == |v| && 0 <= col < |u|
    requires u[col].status != Full && v[col].status == Full
    requires forall l :: 0 <= l < |u| && l != col ==> (u[l].status == Full <==> v[l].status == Full)
    ensures RowFull(v) == RowFull(u) + 1
  {
    var n := |u| - 1;
    if col == n {
      RowFullSame(u[..n], v[..n]);
    } else {
      RowFullOneMore(u[..n], v[..n], col);
    }
  }

  lemma {:induction false} RowsFullSame(u: seq<seq<Square>>, v: seq<seq<Square>>)
    requires |u| == |v| && forall k :: 0 <= k < |u| ==> RowFull(u[k]) == RowFull(v[k])
    ensures RowsFull(u) == RowsFull(v)
  {
    if u != [] {
      RowsFullSame(u[..|u| - 1], v[..|v| - 1]);
    }
  }

  lemma {:induction false} RowsFullOneMore(u: seq<seq<Square>>, v: seq<seq<Square>>, r: int)
    requires |u| == |v| && 0 <= r < |u|
    requires forall k :: 0 <= k < |u| && k != r ==> RowFull(u[k]) == RowFull(v[k])
    requires RowFull(v[r]) == RowFull(u[r]) + 1
    ensures RowsFull(v) == RowsFull(u) + 1
  {
    var n := |u| - 1;
    if r == n {
      RowsFullSame(u[..n], v[..n]);
    } else {
      RowsFullOneMore(u[..n], v[..n], r);
    }
  }

  /** One square that becomes full, all others keeping their fullness, raises the count by exactly one. */
  lemma FullCountOneMore(a: Board, b: Board, r: int, col: int)
    requires InBounds(r, col)
    requires a[r][col].status != Full && b[r][col].status == Full
    requires forall x, y :: InBounds(x, y) && (x != r || y != col) ==>
      (a[x][y].status == Full <==> b[x][y].status == Full)
    ensures FullCount(b) == FullCount(a) + 1
  {
    forall k | 0 <= k < BoardSize && k != r
      ensures RowFull(a[k]) == RowFull(b[k])
    {
      RowFullSame(a[k], b[k]);
    }
    RowFullOneMore(a[r], b[r], col);
    RowsFullOneMore(a, b, r);
  }

  /** The result announced at the end of a match. */
  datatype Outcome = Draw | Winner(color: Color)

  /** `print_game_over`: equal counts are a draw, otherwise the colour with more discs wins. */
  function GameOutcome(b: Board): (r: Outcome)
    ensures r == Draw <==> Discs(b, White) == Discs(b, Black)
    ensures r.Winner? ==> Discs(b, r.color) > Discs(b, Opposite(r.color))
  {
    var black := Discs(b, Black);
    var white := Discs(b, White);
    if black == white then Draw
    else Winner(if black > white then Black else White)
  }
}
