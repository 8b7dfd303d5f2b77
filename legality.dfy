/**
 * The legality scanner of src/logic/logic.c as functions on board values:
 * clearing stale marks, the three-state pattern automaton run along one line,
 * the enumeration of the lines of each direction, and the eight directions in
 * turn. The lemmas show that marking only moves statuses between empty and
 * valid, that every mark is sound for the Othello capture rule, and that the
 * marks depend on the discs alone (so marking twice changes nothing).
 */
module Legality {
  import opened Othello

  /** What the scan of a line has seen just before the current square. */
  datatype Pattern = EmptyPattern | SameColor | SameAndOppositeColor

  predicate HasDisc(b: Board, i: int, j: int, c: Color)
  {
    InBounds(i, j) && b[i][j].status == Full && b[i][j].color == c
  }

  /**
   * `k` opposite-colour discs lie along `d` starting at (i, j), and the square
   * after them holds a disc of colour `c`.
   */
  ghost predicate Bracketed(b: Board, c: Color, d: Direction, i: int, j: int, k: nat)
  {
    && (forall s :: 0 <= s < k ==> HasDisc(b, Ray(d, i, j, s).0, Ray(d, i, j, s).1, Opposite(c)))
    && HasDisc(b, Ray(d, i, j, k).0, Ray(d, i, j, k).1, c)
  }

  /**
   * Walking from (i, j) along `d`: the number of contiguous discs of the colour
   * opposite to `c` met before the first disc of colour `c`, or None when the
   * walk reaches a non-full square or leaves the board first.
   */
  function RunLength(b: Board, c: Color, d: Direction, i: int, j: int): Option<nat>
    decreases Steps(d, i, j), b
  {
    if !InBounds(i, j) || b[i][j].status != Full then None
    else if b[i][j].color == c then Some(0)
    else
      StepsDecrease(d, i, j);
      var next := Step(d, i, j);
      match RunLength(b, c, d, next.0, next.1)
      case None => None
      case Some(k) => Some(k + 1)
  }

  /**
   * What a walk's result means: `Some(k)` exactly when `k` opposite-colour
   * discs and then a `c` disc lie ahead, None when no such `k` exists.
   */
  lemma {:induction false} RunLengthMeaning(b: Board, c: Color, d: Direction, i: int, j: int)
    ensures RunLength(b, c, d, i, j).Some? ==> Bracketed(b, c, d, i, j, RunLength(b, c, d, i, j).value)
    ensures RunLength(b, c, d, i, j).None? ==> forall k: nat :: !Bracketed(b, c, d, i, j, k)
    decreases Steps(d, i, j)
  {
    RayStep(d, i, j, 0);
    if !InBounds(i, j) || b[i][j].status != Full {
      forall k: nat
        ensures !Bracketed(b, c, d, i, j, k)
      {
        if k > 0 {
          assert !HasDisc(b, Ray(d, i, j, 0).0, Ray(d, i, j, 0).1, Opposite(c));
        } else {
          assert !HasDisc(b, Ray(d, i, j, 0).0, Ray(d, i, j, 0).1, c);
        }
      }
    } else if b[i][j].color != c {
      StepsDecrease(d, i, j);
      var next := Step(d, i, j);
      RunLengthMeaning(b, c, d, next.0, next.1);
      RunShift(b, c, d, i, j);
      if RunLength(b, c, d, next.0, next.1).None? {
        forall k: nat
          ensures !Bracketed(b, c, d, i, j, k)
        {
          if k > 0 {
            assert !Bracketed(b, c, d, next.0, next.1, k - 1);
          }
        }
      }
    }
  }

  /** A walk that starts on an opposite-colour disc is a walk from the next square shifted by one. */
  lemma RunShift(b: Board, c: Color, d: Direction, i: int, j: int)
    requires HasDisc(b, i, j, Opposite(c))
    ensures forall k: nat :: Bracketed(b, c, d, i, j, k + 1) <==> Bracketed(b, c, d, Step(d, i, j).0, Step(d, i, j).1, k)
    ensures !Bracketed(b, c, d, i, j, 0)
  {
    var n := Step(d, i, j);
    assert forall s :: Ray(d, n.0, n.1, s) == Ray(d, i, j, s + 1);
    RayStep(d, i, j, 0);
    forall k: nat
      ensures Bracketed(b, c, d, i, j, k + 1) <==> Bracketed(b, c, d, n.0, n.1, k)
    {
      if Bracketed(b, c, d, n.0, n.1, k) {
        forall s | 0 <= s < k + 1
          ensures HasDisc(b, Ray(d, i, j, s).0, Ray(d, i, j, s).1, Opposite(c))
        {
          if s > 0 {
            assert Ray(d, i, j, s) == Ray(d, n.0, n.1, s - 1);
          }
        }
      }
      if Bracketed(b, c, d, i, j, k + 1) {
        forall s | 0 <= s < k
          ensures HasDisc(b, Ray(d, n.0, n.1, s).0, Ray(d, n.0, n.1, s).1, Opposite(c))
        {
          assert Ray(d, n.0, n.1, s) == Ray(d, i, j, s + 1);
        }
      }
    }
  }

  /**
   * The square (i, j) is flanked along `d`: walking from it along `d` meets one
   * or more opposite-colour discs and then a disc of colour `c`.
   */
  predicate Flanked(b: Board, c: Color, d: Direction, i: int, j: int)
  {
    var next := Step(d, i, j);
    var run := RunLength(b, c, d, next.0, next.1);
    run.Some? && run.value >= 1
  }

  /** Placing a `c` disc on (i, j) would capture in some direction: the Othello legality rule. */
  ghost predicate IsCapture(b: Board, c: Color, i: int, j: int)
  {
    exists d :: Flanked(b, c, d, i, j)
  }

  /** Two boards hold the same discs (statuses may differ between empty and valid). */
  ghost predicate SameDiscs(a: Board, b: Board)
  {
    forall x, y :: InBounds(x, y) ==>
      && (a[x][y].status == Full <==> b[x][y].status == Full)
      && (a[x][y].status == Full ==> a[x][y].color == b[x][y].color)
  }

  /** Walks only look at discs, so boards with the same discs give the same walks. */
  lemma {:induction false} RunLengthSameDiscs(a: Board, b: Board, c: Color, d: Direction, i: int, j: int)
    requires SameDiscs(a, b)
    ensures RunLength(a, c, d, i, j) == RunLength(b, c, d, i, j)
    decreases Steps(d, i, j)
  {
    if InBounds(i, j) && a[i][j].status == Full && a[i][j].color != c {
      StepsDecrease(d, i, j);
      var next := Step(d, i, j);
      RunLengthSameDiscs(a, b, c, d, next.0, next.1);
      var r := RunLength(a, c, d, next.0, next.1);
      assert RunLength(a, c, d, i, j) == if r.None? then None else Some(r.value + 1);
      assert RunLength(b, c, d, i, j) == if r.None? then None else Some(r.value + 1);
    }
  }

  lemma FlankedSameDiscs(a: Board, b: Board, c: Color)
    requires SameDiscs(a, b)
    ensures forall d, x, y :: Flanked(a, c, d, x, y) <==> Flanked(b, c, d, x, y)
    ensures forall x, y :: IsCapture(a, c, x, y) <==> IsCapture(b, c, x, y)
  {
    forall d, x, y
      ensures Flanked(a, c, d, x, y) <==> Flanked(b, c, d, x, y)
    {
      var next := Step(d, x, y);
      RunLengthSameDiscs(a, b, c, d, next.0, next.1);
    }
  }

  /** The automaton's transition on one square (logic.c:679-689). */
  function NextPattern(s: Square, c: Color, previous: Pattern): Pattern
  {
    if s.status != Full then EmptyPattern
    else if s.color == c then SameColor
    else if previous == SameColor then SameAndOppositeColor
    else previous
  }

  /**
   * `mark_valid_moves_array`: runs the pattern automaton along `d` from (i, j)
   * and marks the first non-full square met in the state
   * `SameAndOppositeColor`, then stops scanning that line.
   */
  function ScanLine(b: Board, c: Color, d: Direction, i: int, j: int, previous: Pattern): (r: Board)
    decreases Steps(d, i, j), b
    ensures forall x, y :: InBounds(x, y) && r[x][y] != b[x][y] ==>
      b[x][y].status != Full && r[x][y] == b[x][y].(status := Valid) && RayIndex(d, i, j, x, y) >= 0
  {
    if !InBounds(i, j) then b
    else if b[i][j].status != Full && previous == SameAndOppositeColor then
      RayStep(d, i, j, 0);
      Set(b, i, j, b[i][j].(status := Valid))
    else
      StepsDecrease(d, i, j);
      var next := Step(d, i, j);
      assert forall t :: Ray(d, next.0, next.1, t) == Ray(d, i, j, t + 1);
      ScanLine(b, c, d, next.0, next.1, NextPattern(b[i][j], c, previous))
  }

  /** What the automaton state promises about the squares already scanned, walking back along `Reverse(d)`. */
  ghost predicate PatternHolds(b: Board, c: Color, d: Direction, i: int, j: int, p: Pattern)
  {
    match p
    case EmptyPattern => true
    case SameColor => HasDisc(b, Step(Reverse(d), i, j).0, Step(Reverse(d), i, j).1, c)
    case SameAndOppositeColor => Flanked(b, c, Reverse(d), i, j)
  }

  /** Soundness of one line scan: a square it marks is flanked against the scan direction. */
  lemma {:induction false} ScanLineSound(b: Board, c: Color, d: Direction, i: int, j: int, p: Pattern)
    requires PatternHolds(b, c, d, i, j, p)
    ensures forall x, y :: InBounds(x, y) && ScanLine(b, c, d, i, j, p)[x][y] != b[x][y] ==>
      Flanked(b, c, Reverse(d), x, y)
    decreases Steps(d, i, j)
  {
    if InBounds(i, j) && !(b[i][j].status != Full && p == SameAndOppositeColor) {
      StepsDecrease(d, i, j);
      var next := Step(d, i, j);
      StepBack(d, i, j);
      var q := NextPattern(b[i][j], c, p);
      if q == SameAndOppositeColor {
        var back := Step(Reverse(d), i, j);
        if p == SameAndOppositeColor {
          var k := RunLength(b, c, Reverse(d), back.0, back.1).value;
          assert RunLength(b, c, Reverse(d), i, j) == Some(k + 1);
        } else {
          assert RunLength(b, c, Reverse(d), back.0, back.1) == Some(0);
          assert RunLength(b, c, Reverse(d), i, j) == Some(1);
        }
      }
      assert PatternHolds(b, c, d, next.0, next.1, q);
      ScanLineSound(b, c, d, next.0, next.1, q);
    }
  }

  /** `get_starting_indices`: the first square of the first line scanned in direction `d`. */
  function StartIndices(d: Direction): (r: (int, int))
    ensures InBounds(r.0, r.1)
  {
    match d
    case North => (7, 0)
    case NorthEast => (2, 0)
    case East => (0, 0)
    case SouthEast => (0, 5)
    case South => (0, 7)
    case SouthWest => (5, 7)
    case West => (7, 7)
    case NorthWest => (7, 2)
  }

  /**
   * `get_next_array`: the first square of the next line in direction `d`, and
   * whether there is one. The limits on the diagonals leave out the lines of
   * one or two squares, which are too short to hold a capture.
   */
  function NextArray(d: Direction, i: int, j: int): (bool, int, int)
  {
    var (ni, nj) :=
      match d
      case North => (i, j + 1)
      case NorthEast => if i == BoardSize - 1 then (i, j + 1) else (i + 1, j)
      case East => (i + 1, j)
      case SouthEast => if j == 0 then (i + 1, j) else (i, j - 1)
      case South => (i, j - 1)
      case SouthWest => if i == 0 then (i, j - 1) else (i - 1, j)
      case West => (i - 1, j)
      case NorthWest => if j == BoardSize - 1 then (i - 1, j) else (i, j + 1);
    var stop :=
      || ni == BoardSize || nj == BoardSize || ni == -1 || nj == -1
      || (d == NorthEast && nj == 6)
      || (d == SouthEast && ni == 6)
      || (d == SouthWest && nj == 1)
      || (d == NorthWest && ni == 1);
    (!stop, ni, nj)
  }

  /** A termination measure for the walk over the first squares of the lines of a direction. */
  function LineMeasure(d: Direction, i: int, j: int): nat
  {
    if !InBounds(i, j) then 0
    else
      match d
      case North => 8 - j
      case NorthEast => (8 - i) + (8 - j)
      case East => 8 - i
      case SouthEast => (8 - i) + (j + 1)
      case South => j + 1
      case SouthWest => (i + 1) + (j + 1)
      case West => i + 1
      case NorthWest => (i + 1) + (8 - j)
  }

  lemma NextArrayDecreases(d: Direction, i: int, j: int)
    requires InBounds(i, j)
    ensures NextArray(d, i, j).0 ==> InBounds(NextArray(d, i, j).1, NextArray(d, i, j).2)
    ensures NextArray(d, i, j).0 ==> LineMeasure(d, NextArray(d, i, j).1, NextArray(d, i, j).2) < LineMeasure(d, i, j)
  {
  }

  /** Changes from `a` to `b` only mark non-full squares as valid. */
  ghost predicate OnlyMarks(a: Board, b: Board)
  {
    forall x, y :: InBounds(x, y) && b[x][y] != a[x][y] ==>
      a[x][y].status != Full && b[x][y] == a[x][y].(status := Valid)
  }

  lemma OnlyMarksSameDiscs(a: Board, b: Board)
    requires OnlyMarks(a, b)
    ensures SameDiscs(a, b)
  {
  }

  /** `mark_valid_moves_all_arrays`: scans every line of direction `d` from the line starting at (i, j) on. */
  function ScanLines(b: Board, c: Color, d: Direction, i: int, j: int): (r: Board)
    requires InBounds(i, j)
    decreases LineMeasure(d, i, j), b
    ensures OnlyMarks(b, r)
  {
    var b1 := ScanLine(b, c, d, i, j, EmptyPattern);
    NextArrayDecreases(d, i, j);
    var (more, ni, nj) := NextArray(d, i, j);
    if !more then b1 else ScanLines(b1, c, d, ni, nj)
  }

  /** `mark_valid_moves_all_directions`: scans the lines of `d` and of every later direction. */
  function ScanDirections(b: Board, c: Color, d: Direction): (r: Board)
    decreases 7 - Ordinal(d), b
    ensures OnlyMarks(b, r)
  {
    var start := StartIndices(d);
    var b1 := ScanLines(b, c, d, start.0, start.1);
    if d == NorthWest then b1 else ScanDirections(b1, c, Succ(d))
  }

  /** `delete_all_valid_moves`: every valid square becomes empty. */
  function Cleared(b: Board): Board
  {
    seq(BoardSize, i requires 0 <= i < BoardSize =>
      seq(BoardSize, j requires 0 <= j < BoardSize =>
        if b[i][j].status == Valid then b[i][j].(status := Empty) else b[i][j]))
  }

  /** Clearing empties exactly the valid squares and leaves every other square as it was. */
  lemma ClearedAt(b: Board)
    ensures forall x, y :: InBounds(x, y) ==>
      Cleared(b)[x][y] == if b[x][y].status == Valid then b[x][y].(status := Empty) else b[x][y]
  {
  }

  /**
   * `mark_valid_moves`: clear the previous marks, then scan every line in the
   * eight directions for colour `c`.
   */
  function Marked(b: Board, c: Color): Board
  {
    ScanDirections(Cleared(b), c, North)
  }

  /** Marking leaves discs and colours untouched; every other square ends up empty or valid. */
  lemma MarkedKeepsDiscs(b: Board, c: Color)
    ensures var r := Marked(b, c);
      forall x, y :: InBounds(x, y) ==>
        && r[x][y].color == b[x][y].color
        && (r[x][y].status == Full <==> b[x][y].status == Full)
        && (r[x][y].status != Full ==> r[x][y].status == Empty || r[x][y].status == Valid)
  {
    MarksAfterClearing(b, Marked(b, c));
  }

  lemma MarksAfterClearing(b: Board, r: Board)
    requires OnlyMarks(Cleared(b), r)
    ensures forall x, y :: InBounds(x, y) ==>
      && r[x][y].color == b[x][y].color
      && (r[x][y].status == Full <==> b[x][y].status == Full)
    ensures forall x, y :: InBounds(x, y) && r[x][y].status != Full ==>
      r[x][y].status == Empty || r[x][y].status == Valid
  {
    var cleared := Cleared(b);
    forall x, y | InBounds(x, y)
      ensures r[x][y].color == b[x][y].color
      ensures r[x][y].status == Full <==> b[x][y].status == Full
      ensures r[x][y].status != Full ==> r[x][y].status == Empty || r[x][y].status == Valid
    {
      if r[x][y] != cleared[x][y] {
        assert r[x][y] == cleared[x][y].(status := Valid);
      }
    }
  }

  predicate HasValid(b: Board)
  {
    exists x, y | 0 <= x < BoardSize && 0 <= y < BoardSize :: b[x][y].status == Valid
  }

  /** Soundness of the lines of one direction. */
  lemma {:induction false} ScanLinesSound(b: Board, c: Color, d: Direction, i: int, j: int)
    requires InBounds(i, j)
    ensures forall x, y :: InBounds(x, y) && ScanLines(b, c, d, i, j)[x][y] != b[x][y] ==>
      Flanked(b, c, Reverse(d), x, y)
    decreases LineMeasure(d, i, j)
  {
    var b1 := ScanLine(b, c, d, i, j, EmptyPattern);
    ScanLineSound(b, c, d, i, j, EmptyPattern);
    NextArrayDecreases(d, i, j);
    var (more, ni, nj) := NextArray(d, i, j);
    if more {
      ScanLinesSound(b1, c, d, ni, nj);
      OnlyMarksSameDiscs(b, b1);
      FlankedSameDiscs(b, b1, c);
    }
  }

  /** Soundness of the scan of `d` and every later direction. */
  lemma {:induction false} ScanDirectionsSound(b: Board, c: Color, d: Direction)
    ensures forall x, y :: InBounds(x, y) && ScanDirections(b, c, d)[x][y] != b[x][y] ==>
      IsCapture(b, c, x, y)
    decreases 7 - Ordinal(d)
  {
    var start := StartIndices(d);
    var b1 := ScanLines(b, c, d, start.0, start.1);
    ScanLinesSound(b, c, d, start.0, start.1);
    if d != NorthWest {
      ScanDirectionsSound(b1, c, Succ(d));
      OnlyMarksSameDiscs(b, b1);
      FlankedSameDiscs(b, b1, c);
    }
  }

  /**
   * Soundness of `mark_valid_moves`: a square marked valid for `c` is not full,
   * and placing a `c` disc there captures in some direction. (The converse does
   * not hold: a line stops at its first mark, so on the line own, opposite,
   * empty, own, opposite, empty that line leaves the second empty square
   * unmarked. The diagonals of one or two squares that are never scanned lose
   * nothing: a capture needs three squares in a line.)
   */
  lemma MarkedSound(b: Board, c: Color)
    ensures forall x, y :: InBounds(x, y) && Marked(b, c)[x][y].status == Valid ==>
      b[x][y].status != Full && IsCapture(b, c, x, y)
  {
    var cl := Cleared(b);
    ScanDirectionsSound(cl, c, North);
    assert SameDiscs(b, cl);
    FlankedSameDiscs(b, cl, c);
  }

  /** Marking reads only the discs and the stored colours: stale marks make no difference. */
  lemma MarkedIgnoresMarks(a: Board, b: Board, c: Color)
    requires forall x, y :: InBounds(x, y) ==>
      && a[x][y].color == b[x][y].color
      && (a[x][y].status == Full <==> b[x][y].status == Full)
    ensures Marked(a, c) == Marked(b, c)
  {
    BoardExtensionality(Cleared(a), Cleared(b));
  }

  /** Marking for one colour and then for another gives the marks of the second alone. */
  lemma RemarkOverrides(b: Board, c1: Color, c2: Color)
    ensures Marked(Marked(b, c1), c2) == Marked(b, c2)
  {
    MarkedKeepsDiscs(b, c1);
    MarkedIgnoresMarks(Marked(b, c1), b, c2);
  }

  /** Idempotence: marking twice for the same colour gives the same board. */
  lemma MarkedIdempotent(b: Board, c: Color)
    ensures Marked(Marked(b, c), c) == Marked(b, c)
  {
    RemarkOverrides(b, c, c);
  }
}
