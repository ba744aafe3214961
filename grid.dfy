/**
 * Grid geometry of the snake game: the four headings, grid cells and the
 * one-step wrapping moves along a bounded axis.
 *
 * Coordinates are whole numbers in the game (initial positions, random draws
 * and canvas sizes are all integral and the only arithmetic is +1, -1 and
 * B - v - 1 / B + v), so they are modelled as `int`.
 */
module Grid {

  datatype Direction = Up | Right | Down | Left

  /** A cell of the canvas. */
  datatype Cell = Cell(x: int, y: int)

  predicate IsVertical(d: Direction) {
    d == Up || d == Down
  }

  /** The heading that would reverse `d`. */
  function Opposite(d: Direction): (r: Direction)
    ensures r != d
    ensures IsVertical(r) == IsVertical(d)
  {
    match d
    case Up => Down
    case Down => Up
    case Right => Left
    case Left => Right
  }

  /**
   * The deflection a boulder causes: a vertical heading turns to Right or
   * Left, a horizontal one to Up or Down; `second` is the random choice of the
   * second candidate of the pair.
   */
  function Perpendicular(d: Direction, second: bool): (r: Direction)
    ensures IsVertical(r) != IsVertical(d)
  {
    if IsVertical(d) then (if second then Left else Right)
    else (if second then Down else Up)
  }

  /**
   * `increment_coordinate!`: one step up the axis. Past the bound the value is
   * mirrored to `bound - v - 1` (so `bound` itself goes to -1), not reduced
   * modulo the bound. The closed range [-1, bound] is kept.
   */
  function WrapIncrement(v: int, bound: int): (r: int)
    ensures -1 <= v <= bound ==> -1 <= r <= bound
    ensures v < bound ==> r > v
  {
    if v >= bound then bound - v - 1 else v + 1
  }

  /**
   * `decrement_coordinate!`: one step down the axis; at or below 0 the value
   * goes to `bound + v` (so 0 goes to `bound`). The closed range [-1, bound]
   * is kept when the bound is not negative.
   */
  function WrapDecrement(v: int, bound: int): (r: int)
    ensures 0 <= bound && -1 <= v <= bound ==> -1 <= r <= bound
    ensures v > 0 ==> r < v
  {
    if v <= 0 then bound + v else v - 1
  }

  /** Decrementing undoes an increment from 0 up to just below the bound. */
  lemma DecrementUndoesIncrement(v: int, bound: int)
    requires 0 <= v < bound
    ensures WrapDecrement(WrapIncrement(v, bound), bound) == v
  {
  }

  /** Incrementing undoes a decrement everywhere above 0 up to the bound. */
  lemma IncrementUndoesDecrement(v: int, bound: int)
    requires 0 < v <= bound
    ensures WrapIncrement(WrapDecrement(v, bound), bound) == v
  {
  }

  /**
   * The two edges: stepping down from 0 lands on the bound, and stepping up
   * from the bound lands on -1, so the two wraps do not undo each other there.
   */
  lemma WrapEdges(bound: int)
    ensures WrapDecrement(0, bound) == bound
    ensures WrapIncrement(bound, bound) == -1
    ensures bound >= 0 ==> WrapDecrement(WrapIncrement(bound, bound), bound) == bound - 1
  {
  }

  /** `n` successive increments. */
  function Increments(v: int, bound: int, n: nat): (r: int)
    decreases n
  {
    if n == 0 then v else Increments(WrapIncrement(v, bound), bound, n - 1)
  }

  /** `n` successive decrements. */
  function Decrements(v: int, bound: int, n: nat): (r: int)
    decreases n
  {
    if n == 0 then v else Decrements(WrapDecrement(v, bound), bound, n - 1)
  }

  lemma {:induction false} IncrementsSplit(v: int, bound: int, m: nat, n: nat)
    ensures Increments(v, bound, m + n) == Increments(Increments(v, bound, m), bound, n)
    decreases m
  {
    if m > 0 {
      IncrementsSplit(WrapIncrement(v, bound), bound, m - 1, n);
    }
  }

  lemma {:induction false} DecrementsSplit(v: int, bound: int, m: nat, n: nat)
    ensures Decrements(v, bound, m + n) == Decrements(Decrements(v, bound, m), bound, n)
    decreases m
  {
    if m > 0 {
      DecrementsSplit(WrapDecrement(v, bound), bound, m - 1, n);
    }
  }

  /** Below the bound, `n` increments just add `n`. */
  lemma {:induction false} IncrementsBelowBound(v: int, bound: int, n: nat)
    requires v + n <= bound
    ensures Increments(v, bound, n) == v + n
    decreases n
  {
    if n > 0 {
      IncrementsBelowBound(v + 1, bound, n - 1);
    }
  }

  /** Above 0, `n` decrements just subtract `n`. */
  lemma {:induction false} DecrementsAboveZero(v: int, bound: int, n: nat)
    requires v - n >= 0
    ensures Decrements(v, bound, n) == v - n
    decreases n
  {
    if n > 0 {
      DecrementsAboveZero(v - 1, bound, n - 1);
    }
  }

  /**
   * Moving steadily up an axis of bound B returns to the same coordinate after
   * B + 2 steps: the orbit is 0, 1, ..., B, -1, 0.
   */
  lemma IncrementOrbit(v: int, bound: int)
    requires -1 <= v <= bound
    ensures Increments(v, bound, bound + 2) == v
  {
    var toEdge := bound - v;
    IncrementsBelowBound(v, bound, toEdge);
    IncrementsSplit(v, bound, toEdge, v + 2);
    assert Increments(bound, bound, v + 2) == Increments(-1, bound, v + 1);
    IncrementsBelowBound(-1, bound, v + 1);
  }

  /**
   * Moving steadily down an axis of bound B returns to the same coordinate
   * after B + 1 steps: the orbit is B, ..., 1, 0, B. The two directions
   * therefore do not visit the same number of cells.
   */
  lemma DecrementOrbit(v: int, bound: int)
    requires 0 <= v <= bound
    ensures Decrements(v, bound, bound + 1) == v
  {
    DecrementsAboveZero(v, bound, v);
    DecrementsSplit(v, bound, v, bound + 1 - v);
    assert Decrements(0, bound, bound + 1 - v) == Decrements(bound, bound, bound - v);
    DecrementsAboveZero(bound, bound, bound - v);
  }

  /** Going down, a coordinate in [0, B] never leaves [0, B]. */
  lemma {:induction false} DecrementsStayNonNegative(v: int, bound: int, n: nat)
    requires 0 <= v <= bound
    ensures 0 <= Decrements(v, bound, n) <= bound
    decreases n
  {
    if n > 0 {
      DecrementsStayNonNegative(WrapDecrement(v, bound), bound, n - 1);
    }
  }

  /**
   * Going down from -1: for a positive bound the first step lands on B - 1
   * and -1 is never reached again; for a zero bound -1 is a fixed point.
   */
  lemma LeavesMinusOne(bound: int, n: nat)
    ensures 0 < bound ==> Decrements(-1, bound, n + 1) != -1
    ensures bound == 0 ==> Decrements(-1, bound, n) == -1
  {
    if 0 < bound {
      assert Decrements(-1, bound, n + 1) == Decrements(bound - 1, bound, n);
      DecrementsStayNonNegative(bound - 1, bound, n);
    }
    if bound == 0 {
      DecrementsFixed(-1, n);
    }
  }

  /** With a zero bound, decrementing -1 gives -1 again. */
  lemma {:induction false} DecrementsFixed(v: int, n: nat)
    requires v == -1
    ensures Decrements(v, 0, n) == -1
    decreases n
  {
    if n > 0 {
      DecrementsFixed(WrapDecrement(v, 0), n - 1);
    }
  }

  /**
   * The range the wraps keep: a coordinate that starts in [-1, B] stays there
   * while the canvas keeps its size. A canvas that shrinks, or the initial
   * body on a canvas too narrow to hold it, can leave it.
   */
  predicate OnGrid(c: Cell, xLen: int, yLen: int) {
    -1 <= c.x <= xLen && -1 <= c.y <= yLen
  }

  /** Strictly inside the canvas, where a step and its reverse cancel. */
  predicate Interior(c: Cell, xLen: int, yLen: int) {
    0 < c.x < xLen && 0 < c.y < yLen
  }

  /**
   * One step of a segment heading `d`: Up and Down change y (against bound
   * `yLen`), Right and Left change x (against bound `xLen`).
   */
  function Step(c: Cell, d: Direction, xLen: int, yLen: int): (r: Cell)
    ensures IsVertical(d) ==> r.x == c.x
    ensures !IsVertical(d) ==> r.y == c.y
    ensures xLen >= 0 && yLen >= 0 && OnGrid(c, xLen, yLen) ==> OnGrid(r, xLen, yLen)
  {
    match d
    case Up => Cell(c.x, WrapIncrement(c.y, yLen))
    case Right => Cell(WrapIncrement(c.x, xLen), c.y)
    case Down => Cell(c.x, WrapDecrement(c.y, yLen))
    case Left => Cell(WrapDecrement(c.x, xLen), c.y)
  }

  /**
   * One step against heading `d` (decrement for Up/Right, increment for
   * Down/Left), used to place a new tail and to pull a deflected head back.
   */
  function StepBack(c: Cell, d: Direction, xLen: int, yLen: int): (r: Cell)
    ensures IsVertical(d) ==> r.x == c.x
    ensures !IsVertical(d) ==> r.y == c.y
    ensures xLen >= 0 && yLen >= 0 && OnGrid(c, xLen, yLen) ==> OnGrid(r, xLen, yLen)
  {
    Step(c, Opposite(d), xLen, yLen)
  }

  /** Inside the canvas, stepping back undoes a step. */
  lemma StepBackUndoesStep(c: Cell, d: Direction, xLen: int, yLen: int)
    requires Interior(c, xLen, yLen)
    ensures StepBack(Step(c, d, xLen, yLen), d, xLen, yLen) == c
  {
  }

  /** Inside the canvas, a step undoes stepping back. */
  lemma StepUndoesStepBack(c: Cell, d: Direction, xLen: int, yLen: int)
    requires Interior(c, xLen, yLen)
    ensures Step(StepBack(c, d, xLen, yLen), d, xLen, yLen) == c
  {
  }

  /** Steps along different axes commute. */
  lemma StepsCommute(c: Cell, d1: Direction, d2: Direction, xLen: int, yLen: int)
    requires IsVertical(d1) != IsVertical(d2)
    ensures Step(Step(c, d1, xLen, yLen), d2, xLen, yLen) == Step(Step(c, d2, xLen, yLen), d1, xLen, yLen)
  {
  }
}
