/**
 * The capture propagator of src/logic/logic.c as functions on board values:
 * `reverse_color_in_array` walks out from the new disc along one direction,
 * turns back at the first disc of the mover's colour and flips every disc it
 * passed; `reverse_color_all_directions` does so for the eight directions in
 * turn.
 */
module Capture {
  import opened Othello
  import opened Legality

  /** Flips the colours of the `k` squares that start at (i, j) along `d`. */
  function FlipRun(b: Board, d: Direction, i: int, j: int, k: nat): Board
    decreases k, b
  {
    if k == 0 || !InBounds(i, j) then b
    else
      var next := Step(d, i, j);
      FlipRun(Set(b, i, j, Flipped(b[i][j])), d, next.0, next.1, k - 1)
  }

  lemma RayIndexStep(d: Direction, i: int, j: int, x: int, y: int)
    ensures var next := Step(d, i, j);
      RayIndex(d, next.0, next.1, x, y) == if RayIndex(d, i, j, x, y) >= 1 then RayIndex(d, i, j, x, y) - 1 else -1
  {
    var next := Step(d, i, j);
    assert forall s :: Ray(d, next.0, next.1, s) == Ray(d, i, j, s + 1);
    var t := RayIndex(d, i, j, x, y);
    var u := RayIndex(d, next.0, next.1, x, y);
    if u >= 0 {
      assert Ray(d, i, j, u + 1) == (x, y);
    }
    if t >= 1 {
      assert Ray(d, next.0, next.1, t - 1) == (x, y);
    }
  }

  /** The run flipped by `FlipRun` is exactly the first `k` squares of the ray. */
  lemma {:induction false} FlipRunAt(b: Board, d: Direction, i: int, j: int, k: nat)
    requires forall s :: 0 <= s < k ==> InBounds(Ray(d, i, j, s).0, Ray(d, i, j, s).1)
    ensures forall x, y :: InBounds(x, y) ==>
      FlipRun(b, d, i, j, k)[x][y] == if 0 <= RayIndex(d, i, j, x, y) < k then Flipped(b[x][y]) else b[x][y]
    decreases k
  {
    if k > 0 {
      RayStep(d, i, j, 0);
      assert InBounds(i, j);
      var next := Step(d, i, j);
      assert forall s :: Ray(d, next.0, next.1, s) == Ray(d, i, j, s + 1);
      var b1 := Set(b, i, j, Flipped(b[i][j]));
      FlipRunAt(b1, d, next.0, next.1, k - 1);
      forall x, y | InBounds(x, y)
        ensures FlipRun(b, d, i, j, k)[x][y] == if 0 <= RayIndex(d, i, j, x, y) < k then Flipped(b[x][y]) else b[x][y]
      {
        RayIndexStep(d, i, j, x, y);
      }
    }
  }

  /**
   * `reverse_color_in_array` from the move square (i, j) along `d`: when the
   * walk from the neighbour meets `k` opposite-colour discs and then a disc of
   * colour `c`, those `k` discs are flipped; otherwise nothing changes. A move
   * square that is not full stops the walk at once.
   */
  function ReverseRay(b: Board, c: Color, d: Direction, i: int, j: int): Board
    requires InBounds(i, j)
  {
    if b[i][j].status != Full then b
    else
      var next := Step(d, i, j);
      match RunLength(b, c, d, next.0, next.1)
      case None => b
      case Some(k) => FlipRun(b, d, next.0, next.1, k)
  }

  /**
   * Flipping along one ray: exactly the contiguous opposite-colour discs
   * between the move and the first disc of the mover's colour turn to the
   * mover's colour; if the walk meets a non-full square or the edge first,
   * nothing changes.
   */
  lemma ReverseRayFlipsRun(b: Board, c: Color, d: Direction, i: int, j: int)
    requires InBounds(i, j) && b[i][j].status == Full
    ensures var next := Step(d, i, j);
      var run := RunLength(b, c, d, next.0, next.1);
      forall x, y :: InBounds(x, y) ==>
        ReverseRay(b, c, d, i, j)[x][y] ==
          if run.Some? && 1 <= RayIndex(d, i, j, x, y) <= run.value then Square(Full, c) else b[x][y]
  {
    var next := Step(d, i, j);
    var run := RunLength(b, c, d, next.0, next.1);
    RunLengthMeaning(b, c, d, next.0, next.1);
    forall x, y | InBounds(x, y)
      ensures RayIndex(d, next.0, next.1, x, y) == if RayIndex(d, i, j, x, y) >= 1 then RayIndex(d, i, j, x, y) - 1 else -1
    {
      RayIndexStep(d, i, j, x, y);
    }
    if run.Some? {
      var k := run.value;
      FlipRunAt(b, d, next.0, next.1, k);
      forall x, y | InBounds(x, y) && 0 <= RayIndex(d, next.0, next.1, x, y) < k
        ensures Flipped(b[x][y]) == Square(Full, c)
      {
        var s := RayIndex(d, next.0, next.1, x, y);
        assert HasDisc(b, Ray(d, next.0, next.1, s).0, Ray(d, next.0, next.1, s).1, Opposite(c));
      }
    }
  }

  /**
   * Walking out from the move square (i, j): opposite-colour discs at
   * distances 1 to t-1 and a disc of colour `c` at distance t make a run of
   * t-1 discs.
   */
  lemma RunFound(b: Board, c: Color, d: Direction, i: int, j: int, t: int)
    requires t >= 1 && Walked(b, c, d, i, j, t)
    requires HasDisc(b, Ray(d, i, j, t).0, Ray(d, i, j, t).1, c)
    ensures RunLength(b, c, d, Step(d, i, j).0, Step(d, i, j).1) == Some(t - 1)
  {
    var next := Step(d, i, j);
    assert forall s :: Ray(d, next.0, next.1, s) == Ray(d, i, j, s + 1);
    assert Bracketed(b, c, d, next.0, next.1, t - 1);
    RunLengthMeaning(b, c, d, next.0, next.1);
    assert forall s :: 0 <= s < t - 1 ==> !HasDisc(b, Ray(d, next.0, next.1, s).0, Ray(d, next.0, next.1, s).1, c);
  }

  /**
   * Walking out from the move square (i, j): opposite-colour discs at
   * distances 1 to t-1 and then the edge or a square without a disc at
   * distance t make no run.
   */
  lemma RunMissing(b: Board, c: Color, d: Direction, i: int, j: int, t: int)
    requires t >= 1 && Walked(b, c, d, i, j, t)
    requires var r := Ray(d, i, j, t); !InBounds(r.0, r.1) || b[r.0][r.1].status != Full
    ensures RunLength(b, c, d, Step(d, i, j).0, Step(d, i, j).1) == None
  {
    var next := Step(d, i, j);
    assert forall s :: Ray(d, next.0, next.1, s) == Ray(d, i, j, s + 1);
    forall k: nat
      ensures !Bracketed(b, c, d, next.0, next.1, k)
    {
      var r := Ray(d, next.0, next.1, t - 1);
      if k < t - 1 {
        assert HasDisc(b, Ray(d, i, j, k + 1).0, Ray(d, i, j, k + 1).1, Opposite(c));
      } else {
        assert !HasDisc(b, r.0, r.1, c) && !HasDisc(b, r.0, r.1, Opposite(c));
      }
    }
    RunLengthMeaning(b, c, d, next.0, next.1);
  }

  /** The discs at distances 1 to t-1 from (i, j) along `d` all have the colour opposite to `c`. */
  ghost predicate Walked(b: Board, c: Color, d: Direction, i: int, j: int, t: int)
  {
    forall s :: 1 <= s < t ==> HasDisc(b, Ray(d, i, j, s).0, Ray(d, i, j, s).1, Opposite(c))
  }

  /** `m` is `b` with the squares at distances t+1 to k from (i, j) along `d` turned into discs of colour `c`. */
  ghost predicate FlippedBeyond(m: Board, b: Board, c: Color, d: Direction, i: int, j: int, t: int, k: int)
  {
    forall x, y :: InBounds(x, y) ==>
      m[x][y] == if t < RayIndex(d, i, j, x, y) <= k then Square(Full, c) else b[x][y]
  }

  /** Flipping the square at distance t extends the flipped stretch by one towards (i, j). */
  lemma FlipBackStep(m: Board, b: Board, c: Color, d: Direction, i: int, j: int, t: int, k: int)
    requires FlippedBeyond(m, b, c, d, i, j, t, k) && 1 <= t <= k
    requires InBounds(Ray(d, i, j, t).0, Ray(d, i, j, t).1)
    ensures FlippedBeyond(Set(m, Ray(d, i, j, t).0, Ray(d, i, j, t).1, Square(Full, c)), b, c, d, i, j, t - 1, k)
  {
    var r := Ray(d, i, j, t);
    var m1 := Set(m, r.0, r.1, Square(Full, c));
    forall x, y | InBounds(x, y)
      ensures m1[x][y] == if t - 1 < RayIndex(d, i, j, x, y) <= k then Square(Full, c) else b[x][y]
    {
      if (x, y) != r {
        assert RayIndex(d, i, j, x, y) != t;
      }
    }
  }

  /** Once the walk is back at (i, j), the whole run has been flipped: that is `ReverseRay`. */
  lemma FlipBackDone(m: Board, b: Board, c: Color, d: Direction, i: int, j: int, k: int)
    requires InBounds(i, j) && b[i][j].status == Full
    requires RunLength(b, c, d, Step(d, i, j).0, Step(d, i, j).1) == Some(k)
    requires FlippedBeyond(m, b, c, d, i, j, 0, k)
    ensures m == ReverseRay(b, c, d, i, j)
  {
    ReverseRayFlipsRun(b, c, d, i, j);
    BoardExtensionality(m, ReverseRay(b, c, d, i, j));
  }

  /** Changes from `a` to `b` only turn discs of the colour opposite to `c` into discs of colour `c`. */
  ghost predicate OnlyCaptures(a: Board, b: Board, c: Color)
  {
    forall x, y :: InBounds(x, y) ==>
      && b[x][y].status == a[x][y].status
      && (b[x][y] != a[x][y] ==> a[x][y] == Square(Full, Opposite(c)) && b[x][y] == Square(Full, c))
  }

  lemma ReverseRayCaptures(b: Board, c: Color, d: Direction, i: int, j: int)
    requires InBounds(i, j)
    ensures OnlyCaptures(b, ReverseRay(b, c, d, i, j), c)
    ensures ReverseRay(b, c, d, i, j)[i][j] == b[i][j]
  {
    if b[i][j].status == Full {
      var r := ReverseRay(b, c, d, i, j);
      var next := Step(d, i, j);
      var run := RunLength(b, c, d, next.0, next.1);
      ReverseRayFlipsRun(b, c, d, i, j);
      RunLengthMeaning(b, c, d, next.0, next.1);
      forall x, y | InBounds(x, y)
        ensures r[x][y].status == b[x][y].status
        ensures r[x][y] != b[x][y] ==> b[x][y] == Square(Full, Opposite(c)) && r[x][y] == Square(Full, c)
      {
        var t := RayIndex(d, i, j, x, y);
        if run.Some? && 1 <= t <= run.value {
          RayIndexStep(d, i, j, x, y);
          var u := t - 1;
          assert Ray(d, next.0, next.1, u) == (x, y);
          assert HasDisc(b, Ray(d, next.0, next.1, u).0, Ray(d, next.0, next.1, u).1, Opposite(c));
        }
      }
      assert RayIndex(d, i, j, i, j) == 0;
    }
  }

  /**
   * `reverse_color_in_array` step by step, as the C recursion runs: off the
   * board, back at the move square or at a non-full square it stops; going
   * out it turns round at a disc of colour `c` other than the move square
   * (`reverse_direction`); going back it flips every disc not of colour `c`
   * (`change_discs_color`); then it steps on along `d`.
   */
  function ReverseWalk(b: Board, c: Color, mv: Move, d: Direction, goingBack: bool, i: int, j: int): Board
    requires -1 <= i <= BoardSize && -1 <= j <= BoardSize
    decreases if goingBack then 0 else 1, Steps(d, i, j), b
  {
    if i == BoardSize || j == BoardSize || i == -1 || j == -1 then b
    else if goingBack && mv.row == i && mv.column == j then b
    else if b[i][j].status != Full then b
    else
      var turn := !goingBack && b[i][j].color == c && (mv.row != i || mv.column != j);
      var flip := !turn && goingBack && b[i][j].color != c;
      var d' := if turn then Reverse(d) else d;
      var b' := if flip then Set(b, i, j, b[i][j].(color := Opposite(b[i][j].color))) else b;
      StepsDecrease(d', i, j);
      ReverseWalk(b', c, mv, d', turn || goingBack, Step(d', i, j).0, Step(d', i, j).1)
  }

  /** Going out past a full square that does not end the run: one step further along `d`. */
  lemma ReverseWalkOn(b: Board, c: Color, mv: Move, d: Direction, i: int, j: int)
    requires InBounds(i, j) && b[i][j].status == Full
    requires b[i][j].color != c || (mv.row == i && mv.column == j)
    ensures ReverseWalk(b, c, mv, d, false, i, j) == ReverseWalk(b, c, mv, d, false, Step(d, i, j).0, Step(d, i, j).1)
  {
  }

  /** Going out to a disc of colour `c` other than the move square: turn round and step back. */
  lemma ReverseWalkTurn(b: Board, c: Color, mv: Move, d: Direction, i: int, j: int)
    requires InBounds(i, j) && b[i][j].status == Full && b[i][j].color == c
    requires mv.row != i || mv.column != j
    ensures ReverseWalk(b, c, mv, d, false, i, j)
      == ReverseWalk(b, c, mv, Reverse(d), true, Step(Reverse(d), i, j).0, Step(Reverse(d), i, j).1)
  {
  }

  /** Going back over a disc not of colour `c`: flip it and step on. */
  lemma ReverseWalkFlip(b: Board, c: Color, mv: Move, d: Direction, i: int, j: int)
    requires InBounds(i, j) && b[i][j].status == Full && b[i][j].color != c
    requires mv.row != i || mv.column != j
    ensures ReverseWalk(b, c, mv, d, true, i, j)
      == ReverseWalk(Set(b, i, j, b[i][j].(color := Opposite(b[i][j].color))), c, mv, d, true, Step(d, i, j).0, Step(d, i, j).1)
  {
  }

  /** Going back over a disc of colour `c`: step on without flipping. */
  lemma ReverseWalkBackOn(b: Board, c: Color, mv: Move, d: Direction, i: int, j: int)
    requires InBounds(i, j) && b[i][j].status == Full && b[i][j].color == c
    requires mv.row != i || mv.column != j
    ensures ReverseWalk(b, c, mv, d, true, i, j) == ReverseWalk(b, c, mv, d, true, Step(d, i, j).0, Step(d, i, j).1)
  {
  }

  /** One step of the walk back: the disc at distance t is flipped and the walk moves to distance t - 1. */
  lemma ReverseWalkBackFlip(m: Board, b: Board, c: Color, mv: Move, d: Direction, t: int, k: int)
    requires 1 <= t <= k
    requires Walked(b, c, d, mv.row, mv.column, k + 1)
    requires FlippedBeyond(m, b, c, d, mv.row, mv.column, t, k)
    ensures var r := Ray(d, mv.row, mv.column, t);
      var r' := Ray(d, mv.row, mv.column, t - 1);
      var m' := Set(m, r.0, r.1, Square(Full, c));
      && InBounds(r.0, r.1) && InBounds(r'.0, r'.1)
      && ReverseWalk(m, c, mv, Reverse(d), true, r.0, r.1) == ReverseWalk(m', c, mv, Reverse(d), true, r'.0, r'.1)
      && FlippedBeyond(m', b, c, d, mv.row, mv.column, t - 1, k)
  {
    var r := Ray(d, mv.row, mv.column, t);
    assert HasDisc(b, r.0, r.1, Opposite(c));
    assert RayIndex(d, mv.row, mv.column, r.0, r.1) == t;
    assert m[r.0][r.1] == Square(Full, Opposite(c));
    RayInjective(d, mv.row, mv.column, 0, t);
    RayStep(d, mv.row, mv.column, t - 1);
    ReverseWalkFlip(m, c, mv, Reverse(d), r.0, r.1);
    FlipBackStep(m, b, c, d, mv.row, mv.column, t, k);
  }

  /** Going back from distance t, with the run of length k beyond t already flipped, ends in `ReverseRay`. */
  lemma {:induction false} ReverseWalkBack(m: Board, b: Board, c: Color, mv: Move, d: Direction, t: int, k: int)
    requires b[mv.row][mv.column].status == Full && 0 <= t <= k
    requires RunLength(b, c, d, Step(d, mv.row, mv.column).0, Step(d, mv.row, mv.column).1) == Some(k)
    requires Walked(b, c, d, mv.row, mv.column, k + 1)
    requires FlippedBeyond(m, b, c, d, mv.row, mv.column, t, k)
    ensures var r := Ray(d, mv.row, mv.column, t);
      -1 <= r.0 <= BoardSize && -1 <= r.1 <= BoardSize &&
      ReverseWalk(m, c, mv, Reverse(d), true, r.0, r.1) == ReverseRay(b, c, d, mv.row, mv.column)
    decreases t
  {
    var r := Ray(d, mv.row, mv.column, t);
    if t == 0 {
      RayStep(d, mv.row, mv.column, 0);
      FlipBackDone(m, b, c, d, mv.row, mv.column, k);
    } else {
      var m' := Set(m, r.0, r.1, Square(Full, c));
      ReverseWalkBackFlip(m, b, c, mv, d, t, k);
      ReverseWalkBack(m', b, c, mv, d, t - 1, k);
    }
  }

  /** The walk out stops at the edge or at a non-full square: no run, nothing flipped. */
  lemma ReverseWalkStops(b: Board, c: Color, mv: Move, d: Direction, t: int)
    requires t >= 0 && Walked(b, c, d, mv.row, mv.column, t)
    requires t >= 1 ==> b[mv.row][mv.column].status == Full
    requires var r := Ray(d, mv.row, mv.column, t);
      -1 <= r.0 <= BoardSize && -1 <= r.1 <= BoardSize && (!InBounds(r.0, r.1) || b[r.0][r.1].status != Full)
    ensures var r := Ray(d, mv.row, mv.column, t);
      ReverseWalk(b, c, mv, d, false, r.0, r.1) == b == ReverseRay(b, c, d, mv.row, mv.column)
  {
    RayStep(d, mv.row, mv.column, t);
    if t >= 1 {
      RunMissing(b, c, d, mv.row, mv.column, t);
    }
  }

  /** The walk out meets a disc of colour `c` at distance t: it turns round and flips the run. */
  lemma ReverseWalkFound(b: Board, c: Color, mv: Move, d: Direction, t: int)
    requires t >= 1 && Walked(b, c, d, mv.row, mv.column, t) && b[mv.row][mv.column].status == Full
    requires var r := Ray(d, mv.row, mv.column, t); HasDisc(b, r.0, r.1, c)
    ensures var r := Ray(d, mv.row, mv.column, t);
      ReverseWalk(b, c, mv, d, false, r.0, r.1) == ReverseRay(b, c, d, mv.row, mv.column)
  {
    var r := Ray(d, mv.row, mv.column, t);
    RayStep(d, mv.row, mv.column, t - 1);
    RayInjective(d, mv.row, mv.column, 0, t);
    RunFound(b, c, d, mv.row, mv.column, t);
    ReverseWalkTurn(b, c, mv, d, r.0, r.1);
    ReverseWalkBack(b, b, c, mv, d, t - 1, t - 1);
  }

  /** Going out from distance t over opposite-colour discs ends in `ReverseRay`. */
  lemma {:induction false} ReverseWalkOut(b: Board, c: Color, mv: Move, d: Direction, t: int)
    requires t >= 0 && Walked(b, c, d, mv.row, mv.column, t)
    requires t >= 1 ==> b[mv.row][mv.column].status == Full
    requires var r := Ray(d, mv.row, mv.column, t); -1 <= r.0 <= BoardSize && -1 <= r.1 <= BoardSize
    ensures var r := Ray(d, mv.row, mv.column, t);
      ReverseWalk(b, c, mv, d, false, r.0, r.1) == ReverseRay(b, c, d, mv.row, mv.column)
    decreases Steps(d, Ray(d, mv.row, mv.column, t).0, Ray(d, mv.row, mv.column, t).1)
  {
    var r := Ray(d, mv.row, mv.column, t);
    if !InBounds(r.0, r.1) || b[r.0][r.1].status != Full {
      ReverseWalkStops(b, c, mv, d, t);
    } else if b[r.0][r.1].color == c && t != 0 {
      ReverseWalkFound(b, c, mv, d, t);
    } else {
      RayStep(d, mv.row, mv.column, t);
      if t != 0 {
        RayInjective(d, mv.row, mv.column, 0, t);
      }
      StepsDecrease(d, r.0, r.1);
      ReverseWalkOn(b, c, mv, d, r.0, r.1);
      ReverseWalkOut(b, c, mv, d, t + 1);
    }
  }

  /** The step-by-step walk from the move square is the one-ray capture `ReverseRay`. */
  lemma ReverseWalkRay(b: Board, c: Color, mv: Move, d: Direction)
    ensures ReverseWalk(b, c, mv, d, false, mv.row, mv.column) == ReverseRay(b, c, d, mv.row, mv.column)
  {
    RayStep(d, mv.row, mv.column, 0);
    ReverseWalkOut(b, c, mv, d, 0);
  }

  /**
   * `reverse_color_all_directions`: the rays of `d` and of every later
   * direction, in enumeration order, around the move square (i, j).
   */
  function ReverseFrom(b: Board, c: Color, i: int, j: int, d: Direction): (r: Board)
    requires InBounds(i, j)
    decreases 7 - Ordinal(d), b
    ensures OnlyCaptures(b, r, c) && r[i][j] == b[i][j]
  {
    var b1 := ReverseRay(b, c, d, i, j);
    ReverseRayCaptures(b, c, d, i, j);
    if d == NorthWest then b1 else ReverseFrom(b1, c, i, j, Succ(d))
  }

  /** Square (x, y) lies on the run of opposite discs that the disc at (i, j) brackets along `d`. */
  ghost predicate CapturedAlong(b: Board, c: Color, d: Direction, i: int, j: int, x: int, y: int)
  {
    var next := Step(d, i, j);
    var run := RunLength(b, c, d, next.0, next.1);
    run.Some? && 1 <= RayIndex(d, i, j, x, y) <= run.value
  }

  /** Two rays from one square share no square but that one. */
  lemma RaysDisjoint(d: Direction, e: Direction, i: int, j: int, x: int, y: int)
    requires d != e
    ensures RayIndex(d, i, j, x, y) < 1 || RayIndex(e, i, j, x, y) < 1
  {
  }

  /** Two boards agree on the ray from (i, j) along `d`. */
  ghost predicate AgreeOnRay(a: Board, b: Board, d: Direction, i: int, j: int)
  {
    forall x, y :: InBounds(x, y) && RayIndex(d, i, j, x, y) >= 0 ==> a[x][y] == b[x][y]
  }

  /** Boards that agree on a ray agree on its first square and on the ray from the next square. */
  lemma AgreeOnRayStep(a: Board, b: Board, d: Direction, i: int, j: int)
    requires InBounds(i, j) && AgreeOnRay(a, b, d, i, j)
    ensures a[i][j] == b[i][j]
    ensures AgreeOnRay(a, b, d, Step(d, i, j).0, Step(d, i, j).1)
  {
    assert RayIndex(d, i, j, i, j) == 0;
    var next := Step(d, i, j);
    forall x, y | InBounds(x, y) && RayIndex(d, next.0, next.1, x, y) >= 0
      ensures a[x][y] == b[x][y]
    {
      RayIndexStep(d, i, j, x, y);
    }
  }

  /** A walk along `d` reads only the squares of its own ray. */
  lemma {:induction false} RunLengthOnRay(a: Board, b: Board, c: Color, d: Direction, i: int, j: int)
    requires AgreeOnRay(a, b, d, i, j)
    ensures RunLength(a, c, d, i, j) == RunLength(b, c, d, i, j)
    decreases Steps(d, i, j)
  {
    if InBounds(i, j) {
      AgreeOnRayStep(a, b, d, i, j);
      if a[i][j].status == Full && a[i][j].color != c {
        StepsDecrease(d, i, j);
        var next := Step(d, i, j);
        RunLengthOnRay(a, b, c, d, next.0, next.1);
        var r := RunLength(a, c, d, next.0, next.1);
        assert RunLength(a, c, d, i, j) == if r.None? then None else Some(r.value + 1);
        assert RunLength(b, c, d, i, j) == if r.None? then None else Some(r.value + 1);
      }
    }
  }

  /** Capturing along `d` leaves every square on another ray from (i, j) as it was. */
  lemma ReverseRayOtherRays(b: Board, c: Color, d: Direction, e: Direction, i: int, j: int, x: int, y: int)
    requires InBounds(i, j) && b[i][j].status == Full && e != d
    requires InBounds(x, y) && RayIndex(e, i, j, x, y) >= 1
    ensures ReverseRay(b, c, d, i, j)[x][y] == b[x][y]
  {
    ReverseRayFlipsRun(b, c, d, i, j);
    RaysDisjoint(d, e, i, j, x, y);
  }

  /** Capturing along `d` changes no run that the move brackets along another direction. */
  lemma ReverseRayOtherRuns(b: Board, c: Color, d: Direction, e: Direction, i: int, j: int, x: int, y: int)
    requires InBounds(i, j) && b[i][j].status == Full && e != d
    ensures CapturedAlong(ReverseRay(b, c, d, i, j), c, e, i, j, x, y) <==> CapturedAlong(b, c, e, i, j, x, y)
  {
    var b1 := ReverseRay(b, c, d, i, j);
    var next := Step(e, i, j);
    forall u, v | InBounds(u, v) && RayIndex(e, next.0, next.1, u, v) >= 0
      ensures b1[u][v] == b[u][v]
    {
      RayIndexStep(e, i, j, u, v);
      ReverseRayOtherRays(b, c, d, e, i, j, u, v);
    }
    RunLengthOnRay(b1, b, c, e, next.0, next.1);
  }

  /** Some direction from `d` on brackets (x, y). */
  ghost predicate CapturedFrom(b: Board, c: Color, i: int, j: int, d: Direction, x: int, y: int)
  {
    exists e :: Ordinal(d) <= Ordinal(e) && CapturedAlong(b, c, e, i, j, x, y)
  }

  /** The directions from `d` on are `d` and those from its successor. */
  lemma CapturedFromSplit(b: Board, b1: Board, c: Color, i: int, j: int, d: Direction, x: int, y: int)
    requires d != NorthWest
    requires forall e :: e != d ==> (CapturedAlong(b1, c, e, i, j, x, y) <==> CapturedAlong(b, c, e, i, j, x, y))
    ensures CapturedFrom(b, c, i, j, d, x, y) <==> CapturedAlong(b, c, d, i, j, x, y) || CapturedFrom(b1, c, i, j, Succ(d), x, y)
  {
    if CapturedFrom(b, c, i, j, d, x, y) && !CapturedAlong(b, c, d, i, j, x, y) {
      var e :| Ordinal(d) <= Ordinal(e) && CapturedAlong(b, c, e, i, j, x, y);
      assert e != d;
      assert Ordinal(Succ(d)) <= Ordinal(e) && CapturedAlong(b1, c, e, i, j, x, y);
    }
    if CapturedFrom(b1, c, i, j, Succ(d), x, y) {
      var e :| Ordinal(Succ(d)) <= Ordinal(e) && CapturedAlong(b1, c, e, i, j, x, y);
      assert Ordinal(d) <= Ordinal(e) && CapturedAlong(b, c, e, i, j, x, y);
    }
  }

  /**
   * The captures of `d` and the later directions are those each direction
   * brackets on the board as it was before any of them: a run flipped along
   * one ray lies on no other ray, so the order of the directions does not
   * matter.
   */
  lemma {:induction false} ReverseFromFlipsRuns(b: Board, c: Color, i: int, j: int, d: Direction)
    requires InBounds(i, j) && b[i][j].status == Full
    decreases 7 - Ordinal(d)
    ensures forall x, y :: InBounds(x, y) ==>
      ReverseFrom(b, c, i, j, d)[x][y] == if CapturedFrom(b, c, i, j, d, x, y) then Square(Full, c) else b[x][y]
  {
    var b1 := ReverseRay(b, c, d, i, j);
    ReverseRayFlipsRun(b, c, d, i, j);
    ReverseRayCaptures(b, c, d, i, j);
    if d == NorthWest {
      forall x, y | InBounds(x, y) && CapturedFrom(b, c, i, j, d, x, y)
        ensures CapturedAlong(b, c, d, i, j, x, y)
      {
        var e :| Ordinal(d) <= Ordinal(e) && CapturedAlong(b, c, e, i, j, x, y);
        assert e == NorthWest;
      }
    } else {
      ReverseFromFlipsRuns(b1, c, i, j, Succ(d));
      assert ReverseFrom(b, c, i, j, d) == ReverseFrom(b1, c, i, j, Succ(d));
      forall x, y | InBounds(x, y)
        ensures ReverseFrom(b, c, i, j, d)[x][y] == if CapturedFrom(b, c, i, j, d, x, y) then Square(Full, c) else b[x][y]
      {
        forall e | e != d
          ensures CapturedAlong(b1, c, e, i, j, x, y) <==> CapturedAlong(b, c, e, i, j, x, y)
        {
          ReverseRayOtherRuns(b, c, d, e, i, j, x, y);
        }
        CapturedFromSplit(b, b1, c, i, j, d, x, y);
      }
    }
  }

  /**
   * `reverse_color`: after a disc is placed at (i, j), exactly the squares on a
   * run it brackets in some direction hold a disc of colour `c`; every other
   * square is as it was.
   */
  lemma ReverseColorFlipsRuns(b: Board, c: Color, i: int, j: int)
    requires InBounds(i, j) && b[i][j].status == Full
    ensures forall x, y :: InBounds(x, y) ==>
      ReverseFrom(b, c, i, j, North)[x][y] ==
        if exists d :: CapturedAlong(b, c, d, i, j, x, y) then Square(Full, c) else b[x][y]
  {
    ReverseFromFlipsRuns(b, c, i, j, North);
    forall x, y | InBounds(x, y)
      ensures CapturedFrom(b, c, i, j, North, x, y) <==> exists d :: CapturedAlong(b, c, d, i, j, x, y)
    {
    }
  }
}
