/**
 * The tick engine of the snake game as functions on values: the body is a
 * sequence of segments (index 0 is the tail, the last index the head), the
 * items a sequence in insertion order. `Tick` is the whole per-tick transition
 * of `App::update`; the class in game.dfy runs it in place and is proved to
 * agree with it.
 */
module Engine {
  import opened Grid

  datatype Option<T> = None | Some(value: T)

  datatype ItemKind = Apple | Mushroom | Hedgehog | Boulder

  datatype Segment = Segment(x: int, y: int, direction: Direction) {
    function At(): Cell {
      Cell(x, y)
    }
  }

  datatype Item = Item(kind: ItemKind, x: int, y: int) {
    function At(): Cell {
      Cell(x, y)
    }
  }

  /** What one tick produces: the new body and items, or a panic of the program. */
  datatype Outcome = Ticked(segments: seq<Segment>, items: seq<Item>) | Panicked

  function SegmentAt(c: Cell, d: Direction): (r: Segment) {
    Segment(c.x, c.y, d)
  }

  function SegmentCells(s: seq<Segment>): (r: seq<Cell>)
    ensures |r| == |s|
    ensures forall i :: 0 <= i < |s| ==> r[i] == s[i].At()
  {
    seq(|s|, i requires 0 <= i < |s| => s[i].At())
  }

  function ItemCells(items: seq<Item>): (r: seq<Cell>)
    ensures |r| == |items|
    ensures forall i :: 0 <= i < |items| ==> r[i] == items[i].At()
  {
    seq(|items|, i requires 0 <= i < |items| => items[i].At())
  }

  function Directions(s: seq<Segment>): (r: seq<Direction>)
    ensures |r| == |s|
    ensures forall i :: 0 <= i < |s| ==> r[i] == s[i].direction
  {
    seq(|s|, i requires 0 <= i < |s| => s[i].direction)
  }

  predicate BodyOnGrid(s: seq<Segment>, xLen: int, yLen: int) {
    forall i :: 0 <= i < |s| ==> OnGrid(s[i].At(), xLen, yLen)
  }

  predicate ItemsOnGrid(items: seq<Item>, xLen: int, yLen: int) {
    forall i :: 0 <= i < |items| ==> OnGrid(items[i].At(), xLen, yLen)
  }

  /**
   * The body `App::new` builds: 13 segments on row 0 at x = 1 .. 13 from tail
   * to head, all heading Right.
   */
  function InitialBody(): (r: seq<Segment>)
    ensures |r| == 13
    ensures forall i :: 0 <= i < 13 ==> r[i] == Segment(i + 1, 0, Right)
  {
    [Segment(1, 0, Right), Segment(2, 0, Right), Segment(3, 0, Right),
     Segment(4, 0, Right), Segment(5, 0, Right), Segment(6, 0, Right),
     Segment(7, 0, Right), Segment(8, 0, Right), Segment(9, 0, Right),
     Segment(10, 0, Right), Segment(11, 0, Right), Segment(12, 0, Right),
     Segment(13, 0, Right)]
  }

  /**
   * Index of the first cell of `cells` equal to `c`, if there is one: the
   * scans of `App::update` over the items and over the body.
   */
  function FirstAt(cells: seq<Cell>, c: Cell): (r: Option<nat>)
    ensures r.Some? ==> r.value < |cells| && cells[r.value] == c && c !in cells[..r.value]
    ensures r.None? <==> c !in cells
    decreases |cells|
  {
    if cells == [] then None
    else if cells[0] == c then Some(0)
    else match FirstAt(cells[1..], c)
      case Some(i) => Some(i + 1)
      case None => None
  }

  /** The contract of `FirstAt` determines its result. */
  lemma FirstAtIs(cells: seq<Cell>, c: Cell, j: nat)
    requires j < |cells| && cells[j] == c
    requires forall p :: 0 <= p < j ==> cells[p] != c
    ensures FirstAt(cells, c) == Some(j)
  {
  }

  /** `items` without its element at `i` (`Vec::remove`). */
  function Remove(items: seq<Item>, i: nat): (r: seq<Item>)
    requires i < |items|
    ensures |r| == |items| - 1
    ensures forall k :: 0 <= k < i ==> r[k] == items[k]
    ensures forall k :: i <= k < |r| ==> r[k] == items[k + 1]
  {
    items[..i] + items[i + 1..]
  }

  /**
   * The movement phase: every segment takes one wrapped step in its own
   * heading, and every segment but the head takes the heading its successor
   * had before the tick.
   */
  function MoveBody(s: seq<Segment>, xLen: int, yLen: int): (r: seq<Segment>)
    ensures |r| == |s|
    ensures forall i :: 0 <= i < |s| ==> r[i] == Moved(s, i, xLen, yLen)
  {
    seq(|s|, i requires 0 <= i < |s| => Moved(s, i, xLen, yLen))
  }

  /** Segment `i` after the movement phase. */
  function Moved(s: seq<Segment>, i: nat, xLen: int, yLen: int): (r: Segment)
    requires i < |s|
    ensures IsVertical(s[i].direction) ==> r.x == s[i].x
    ensures !IsVertical(s[i].direction) ==> r.y == s[i].y
    ensures r.direction == (if i < |s| - 1 then s[i + 1].direction else s[i].direction)
  {
    SegmentAt(Step(s[i].At(), s[i].direction, xLen, yLen),
              if i < |s| - 1 then s[i + 1].direction else s[i].direction)
  }

  /**
   * Movement shifts the headings one place towards the tail: a turn made at
   * the head reaches the segment behind it one tick later.
   */
  lemma MoveShiftsDirections(s: seq<Segment>, xLen: int, yLen: int)
    requires |s| >= 1
    ensures Directions(MoveBody(s, xLen, yLen)) == Directions(s)[1..] + [s[|s| - 1].direction]
  {
  }

  /** Every segment lands one wrapped step from where it was, along its old heading. */
  lemma MoveStepsEverySegment(s: seq<Segment>, xLen: int, yLen: int)
    ensures forall i :: 0 <= i < |s| ==>
      MoveBody(s, xLen, yLen)[i].At() == Step(s[i].At(), s[i].direction, xLen, yLen)
  {
  }

  /** Movement keeps the body inside [-1, B] on both axes. */
  lemma MoveKeepsOnGrid(s: seq<Segment>, xLen: int, yLen: int)
    requires xLen >= 0 && yLen >= 0 && BodyOnGrid(s, xLen, yLen)
    ensures BodyOnGrid(MoveBody(s, xLen, yLen), xLen, yLen)
  {
  }

  /** `n` ticks in which nothing but movement happens. */
  function Moves(s: seq<Segment>, xLen: int, yLen: int, n: nat): (r: seq<Segment>)
    ensures |r| == |s|
    decreases n
  {
    if n == 0 then s else Moves(MoveBody(s, xLen, yLen), xLen, yLen, n - 1)
  }

  /**
   * After `n` movement-only ticks segment `k` has the heading segment `k + n`
   * had, or the head's heading when there is no such segment: a turn ripples
   * back through the body one segment per tick.
   */
  lemma {:induction false} TurnRipples(s: seq<Segment>, xLen: int, yLen: int, n: nat, k: nat)
    requires k < |s|
    ensures Moves(s, xLen, yLen, n)[k].direction ==
      (if k + n < |s| then s[k + n].direction else s[|s| - 1].direction)
    decreases n
  {
    if n > 0 {
      var m := MoveBody(s, xLen, yLen);
      TurnRipples(m, xLen, yLen, n - 1, k);
      if k + n - 1 < |s| - 1 {
        assert m[k + n - 1] == Moved(s, k + n - 1, xLen, yLen);
      } else {
        assert m[|s| - 1] == Moved(s, |s| - 1, xLen, yLen);
      }
    }
  }

  /**
   * Apple or Mushroom: a new tail one wrapped step behind the tail, against
   * the tail's heading, with that heading; every other segment kept.
   */
  function Grow(m: seq<Segment>, xLen: int, yLen: int): (r: seq<Segment>)
    requires |m| >= 1
    ensures |r| == |m| + 1 && r[1..] == m
    ensures r[0].direction == m[0].direction
    ensures IsVertical(m[0].direction) ==> r[0].x == m[0].x
    ensures !IsVertical(m[0].direction) ==> r[0].y == m[0].y
  {
    [SegmentAt(StepBack(m[0].At(), m[0].direction, xLen, yLen), m[0].direction)] + m
  }

  /**
   * Boulder: the head turns to a perpendicular heading, steps that way, then
   * steps back against the heading of the segment before it, which takes the
   * head's new heading.
   */
  function Deflect(m: seq<Segment>, xLen: int, yLen: int, second: bool): (r: seq<Segment>)
    requires |m| >= 2
    ensures |r| == |m|
  {
    var hi := |m| - 1;
    var turned := Perpendicular(m[hi].direction, second);
    var sideways := Step(m[hi].At(), turned, xLen, yLen);
    var back := StepBack(sideways, m[hi - 1].direction, xLen, yLen);
    m[hi - 1 := m[hi - 1].(direction := turned)][hi := SegmentAt(back, turned)]
  }

  /**
   * Self-bite: when the head's cell is that of segment `i` (the first such,
   * head excluded), the body loses segments 0 .. i and keeps the rest.
   */
  function Bite(m: seq<Segment>, h: Cell): (r: seq<Segment>)
    requires |m| >= 1
    ensures 1 <= |r| <= |m| && r[|r| - 1] == m[|m| - 1]
  {
    match FirstAt(SegmentCells(m[..|m| - 1]), h)
    case Some(i) => m[i + 1..]
    case None => m
  }

  /** The effect of picking up an item of kind `kind` at the head's cell `h`. */
  function Pickup(m: seq<Segment>, rest: seq<Item>, kind: ItemKind, h: Cell,
                  xLen: int, yLen: int, second: bool): (r: Outcome)
    requires |m| >= 1
    ensures r.Panicked? <==> kind == Boulder && |m| < 2
    ensures r.Ticked? ==> 1 <= |r.segments| <= |m| + 1
    ensures r.Ticked? ==> |r.items| == if kind == Boulder then |rest| + 1 else |rest|
    ensures r.Ticked? && kind == Boulder ==> r.items[|rest|] == Item(Boulder, h.x, h.y)
  {
    match kind
    case Apple => Ticked(Grow(m, xLen, yLen), rest)
    case Mushroom => Ticked(Grow(m, xLen, yLen), rest)
    case Hedgehog => Ticked(if |m| > 1 then m[1..] else m, rest)
    case Boulder =>
      // with a single segment `head_index - 1` underflows and the game panics
      if |m| < 2 then Panicked
      else Ticked(Deflect(m, xLen, yLen, second), rest + [Item(Boulder, h.x, h.y)])
  }

  /**
   * One tick of `App::update`: move, then act on the first item at the head's
   * new cell, or else check for a self-bite. `second` is the random choice of
   * the perpendicular heading should a boulder be hit.
   */
  function Tick(segs: seq<Segment>, items: seq<Item>, xLen: int, yLen: int, second: bool): (r: Outcome)
    requires |segs| >= 1
    ensures r.Ticked? ==> 1 <= |r.segments| <= |segs| + 1
    ensures r.Ticked? ==> |items| - 1 <= |r.items| <= |items|
  {
    var m := MoveBody(segs, xLen, yLen);
    var h := m[|m| - 1].At();
    match FirstAt(ItemCells(items), h)
    case Some(i) => Pickup(m, Remove(items, i), items[i].kind, h, xLen, yLen, second)
    case None => Ticked(Bite(m, h), items)
  }

  /** The cell the head moves to in the movement phase. */
  function HeadTarget(segs: seq<Segment>, xLen: int, yLen: int): (r: Cell)
    requires |segs| >= 1
  {
    Step(segs[|segs| - 1].At(), segs[|segs| - 1].direction, xLen, yLen)
  }

  /** The head's new cell holds item `i` first: the tick is the pickup of that item. */
  lemma TickPicksUp(segs: seq<Segment>, items: seq<Item>, xLen: int, yLen: int, second: bool, i: nat)
    requires |segs| >= 1
    requires FirstAt(ItemCells(items), HeadTarget(segs, xLen, yLen)) == Some(i)
    ensures Tick(segs, items, xLen, yLen, second) ==
      Pickup(MoveBody(segs, xLen, yLen), Remove(items, i), items[i].kind, HeadTarget(segs, xLen, yLen), xLen, yLen, second)
  {
    var m := MoveBody(segs, xLen, yLen);
    assert m[|m| - 1].At() == HeadTarget(segs, xLen, yLen);
  }

  /** No item at the head's new cell: the tick is the self-bite check. */
  lemma TickMisses(segs: seq<Segment>, items: seq<Item>, xLen: int, yLen: int, second: bool)
    requires |segs| >= 1
    requires HeadTarget(segs, xLen, yLen) !in ItemCells(items)
    ensures Tick(segs, items, xLen, yLen, second) ==
      Ticked(Bite(MoveBody(segs, xLen, yLen), HeadTarget(segs, xLen, yLen)), items)
  {
    var m := MoveBody(segs, xLen, yLen);
    assert m[|m| - 1].At() == HeadTarget(segs, xLen, yLen);
  }

  /** Apple or Mushroom at the head's new cell: the body grows at the tail. */
  lemma TickGrows(segs: seq<Segment>, items: seq<Item>, xLen: int, yLen: int, second: bool, i: nat)
    requires |segs| >= 1
    requires FirstAt(ItemCells(items), HeadTarget(segs, xLen, yLen)) == Some(i)
    requires items[i].kind == Apple || items[i].kind == Mushroom
    ensures var r := Tick(segs, items, xLen, yLen, second);
      var m := MoveBody(segs, xLen, yLen);
      && r.Ticked?
      && |r.segments| == |segs| + 1
      && r.segments[1..] == m
      && r.segments[0].direction == m[0].direction
      && r.segments[0].At() == StepBack(m[0].At(), m[0].direction, xLen, yLen)
      && (Interior(m[0].At(), xLen, yLen) ==>
            Step(r.segments[0].At(), r.segments[0].direction, xLen, yLen) == m[0].At())
      && r.items == Remove(items, i)
  {
    var m := MoveBody(segs, xLen, yLen);
    assert m[|m| - 1].At() == HeadTarget(segs, xLen, yLen);
    if Interior(m[0].At(), xLen, yLen) {
      StepUndoesStepBack(m[0].At(), m[0].direction, xLen, yLen);
    }
  }

  /** Hedgehog at the head's new cell: the tail is lost unless it is also the head. */
  lemma TickShrinks(segs: seq<Segment>, items: seq<Item>, xLen: int, yLen: int, second: bool, i: nat)
    requires |segs| >= 1
    requires FirstAt(ItemCells(items), HeadTarget(segs, xLen, yLen)) == Some(i)
    requires items[i].kind == Hedgehog
    ensures var r := Tick(segs, items, xLen, yLen, second);
      var m := MoveBody(segs, xLen, yLen);
      && r.Ticked?
      && |r.segments| == (if |segs| > 1 then |segs| - 1 else 1)
      && r.segments == m[|m| - |r.segments|..]
      && r.items == Remove(items, i)
  {
    var m := MoveBody(segs, xLen, yLen);
    var h := HeadTarget(segs, xLen, yLen);
    assert m[|m| - 1].At() == h;
    assert Tick(segs, items, xLen, yLen, second) == Pickup(m, Remove(items, i), Hedgehog, h, xLen, yLen, second);
  }

  /**
   * Boulder at the head's new cell, with at least two segments: the item count
   * is kept, the boulder goes back to the end of the list at the head's cell,
   * the head and the segment before it take a heading perpendicular to the old
   * one, and nothing else changes.
   */
  lemma TickDeflects(segs: seq<Segment>, items: seq<Item>, xLen: int, yLen: int, second: bool, i: nat)
    requires |segs| >= 2
    requires FirstAt(ItemCells(items), HeadTarget(segs, xLen, yLen)) == Some(i)
    requires items[i].kind == Boulder
    ensures var r := Tick(segs, items, xLen, yLen, second);
      var m := MoveBody(segs, xLen, yLen);
      var n := |segs|;
      var h := HeadTarget(segs, xLen, yLen);
      && r.Ticked?
      && |r.items| == |items|
      && r.items == Remove(items, i) + [Item(Boulder, h.x, h.y)]
      && |r.segments| == n
      && r.segments[n - 1].direction == Perpendicular(segs[n - 1].direction, second)
      && IsVertical(r.segments[n - 1].direction) != IsVertical(segs[n - 1].direction)
      && r.segments[n - 2].direction == r.segments[n - 1].direction
      && r.segments[n - 2].At() == m[n - 2].At()
      && r.segments[..n - 2] == m[..n - 2]
  {
    var m := MoveBody(segs, xLen, yLen);
    assert m[|m| - 1].At() == HeadTarget(segs, xLen, yLen);
  }

  /**
   * Net effect of a boulder on the head: instead of advancing, it ends one
   * step from its pre-tick cell in the new perpendicular heading (when that
   * cell is inside the canvas, where the wraps cancel).
   */
  lemma BoulderSidesteps(segs: seq<Segment>, items: seq<Item>, xLen: int, yLen: int, second: bool, i: nat)
    requires |segs| >= 2
    requires FirstAt(ItemCells(items), HeadTarget(segs, xLen, yLen)) == Some(i)
    requires items[i].kind == Boulder
    requires Interior(segs[|segs| - 1].At(), xLen, yLen)
    ensures var r := Tick(segs, items, xLen, yLen, second);
      var old_head := segs[|segs| - 1];
      && r.Ticked?
      && r.segments[|segs| - 1].At() ==
           Step(old_head.At(), Perpendicular(old_head.direction, second), xLen, yLen)
  {
    var m := MoveBody(segs, xLen, yLen);
    var n := |segs|;
    var c := segs[n - 1].At();
    var d := segs[n - 1].direction;
    var turned := Perpendicular(d, second);
    assert m[n - 1].At() == HeadTarget(segs, xLen, yLen) == Step(c, d, xLen, yLen);
    assert m[n - 2].direction == d;
    TickDeflects(segs, items, xLen, yLen, second, i);
    var r := Tick(segs, items, xLen, yLen, second);
    assert r.segments[n - 1].At() == StepBack(Step(Step(c, d, xLen, yLen), turned, xLen, yLen), d, xLen, yLen);
    StepsCommute(Step(c, d, xLen, yLen), turned, Opposite(d), xLen, yLen);
    StepBackUndoesStep(c, d, xLen, yLen);
  }

  /** Boulder hit by a body of one segment: the program panics. */
  lemma TickPanics(segs: seq<Segment>, items: seq<Item>, xLen: int, yLen: int, second: bool)
    requires |segs| >= 1
    ensures Tick(segs, items, xLen, yLen, second).Panicked? <==>
      |segs| == 1 &&
      var hit := FirstAt(ItemCells(items), HeadTarget(segs, xLen, yLen));
      hit.Some? && items[hit.value].kind == Boulder
  {
    var m := MoveBody(segs, xLen, yLen);
    assert m[|m| - 1].At() == HeadTarget(segs, xLen, yLen);
  }

  /** The head meets segment `i` first: the body keeps what lies after `i`. */
  lemma BiteAt(m: seq<Segment>, h: Cell, i: nat)
    requires i < |m| - 1 && m[i].At() == h
    requires forall k :: 0 <= k < i ==> m[k].At() != h
    ensures Bite(m, h) == m[i + 1..]
  {
    FirstAtIs(SegmentCells(m[..|m| - 1]), h, i);
  }

  /** The head meets no other segment: the body is kept whole. */
  lemma BiteMisses(m: seq<Segment>, h: Cell)
    requires |m| >= 1
    requires forall k :: 0 <= k < |m| - 1 ==> m[k].At() != h
    ensures Bite(m, h) == m
  {
    assert h !in SegmentCells(m[..|m| - 1]);
  }

  /**
   * No item at the head's new cell and the head meets segment `i` (the first
   * such, head excluded): the body becomes the moved segments after `i`, of
   * length n - 1 - i, head kept, and the items stay as they were.
   */
  lemma TickBites(segs: seq<Segment>, items: seq<Item>, xLen: int, yLen: int, second: bool, i: nat)
    requires |segs| >= 1
    requires HeadTarget(segs, xLen, yLen) !in ItemCells(items)
    requires var m := MoveBody(segs, xLen, yLen);
      i < |segs| - 1 && m[i].At() == HeadTarget(segs, xLen, yLen) &&
      forall k :: 0 <= k < i ==> m[k].At() != HeadTarget(segs, xLen, yLen)
    ensures var r := Tick(segs, items, xLen, yLen, second);
      var m := MoveBody(segs, xLen, yLen);
      && r == Ticked(m[i + 1..], items)
      && |r.segments| == |segs| - 1 - i
      && r.segments[|r.segments| - 1] == m[|segs| - 1]
  {
    var m := MoveBody(segs, xLen, yLen);
    var h := HeadTarget(segs, xLen, yLen);
    TickMisses(segs, items, xLen, yLen, second);
    BiteAt(m, h, i);
  }

  /** No item and no other segment at the head's new cell: only movement happens. */
  lemma TickOnlyMoves(segs: seq<Segment>, items: seq<Item>, xLen: int, yLen: int, second: bool)
    requires |segs| >= 1
    requires HeadTarget(segs, xLen, yLen) !in ItemCells(items)
    requires forall k :: 0 <= k < |segs| - 1 ==> MoveBody(segs, xLen, yLen)[k].At() != HeadTarget(segs, xLen, yLen)
    ensures Tick(segs, items, xLen, yLen, second) == Ticked(MoveBody(segs, xLen, yLen), items)
  {
    var m := MoveBody(segs, xLen, yLen);
    var h := HeadTarget(segs, xLen, yLen);
    assert m[|m| - 1].At() == h;
    assert Tick(segs, items, xLen, yLen, second) == Ticked(Bite(m, h), items);
    BiteMisses(m, h);
  }

  /** Every kind of pickup keeps the body and the items within [-1, B] on both axes. */
  lemma PickupKeepsOnGrid(m: seq<Segment>, rest: seq<Item>, kind: ItemKind, h: Cell,
                          xLen: int, yLen: int, second: bool)
    requires |m| >= 1 && xLen >= 0 && yLen >= 0
    requires BodyOnGrid(m, xLen, yLen) && ItemsOnGrid(rest, xLen, yLen) && OnGrid(h, xLen, yLen)
    ensures var r := Pickup(m, rest, kind, h, xLen, yLen, second);
      r.Ticked? ==> BodyOnGrid(r.segments, xLen, yLen) && ItemsOnGrid(r.items, xLen, yLen)
  {
    match kind
    case Apple =>
      assert OnGrid(StepBack(m[0].At(), m[0].direction, xLen, yLen), xLen, yLen);
    case Mushroom =>
      assert OnGrid(StepBack(m[0].At(), m[0].direction, xLen, yLen), xLen, yLen);
    case Hedgehog =>
    case Boulder =>
      if |m| >= 2 {
        var hi := |m| - 1;
        var turned := Perpendicular(m[hi].direction, second);
        var sideways := Step(m[hi].At(), turned, xLen, yLen);
        assert OnGrid(StepBack(sideways, m[hi - 1].direction, xLen, yLen), xLen, yLen);
        assert ItemsOnGrid(rest + [Item(Boulder, h.x, h.y)], xLen, yLen);
      }
  }

  /** A self-bite keeps the body within [-1, B]: it only drops segments. */
  lemma BiteKeepsOnGrid(m: seq<Segment>, h: Cell, xLen: int, yLen: int)
    requires |m| >= 1 && BodyOnGrid(m, xLen, yLen)
    ensures BodyOnGrid(Bite(m, h), xLen, yLen)
  {
    match FirstAt(SegmentCells(m[..|m| - 1]), h)
    case Some(i) =>
      assert Bite(m, h) == m[i + 1..];
    case None =>
  }

  /**
   * A tick keeps every segment and item within [-1, B] on both axes, for a
   * fixed canvas.
   */
  lemma TickKeepsOnGrid(segs: seq<Segment>, items: seq<Item>, xLen: int, yLen: int, second: bool)
    requires |segs| >= 1 && xLen >= 0 && yLen >= 0
    requires BodyOnGrid(segs, xLen, yLen) && ItemsOnGrid(items, xLen, yLen)
    ensures var r := Tick(segs, items, xLen, yLen, second);
      r.Ticked? ==> BodyOnGrid(r.segments, xLen, yLen) && ItemsOnGrid(r.items, xLen, yLen)
  {
    var m := MoveBody(segs, xLen, yLen);
    MoveKeepsOnGrid(segs, xLen, yLen);
    var h := m[|m| - 1].At();
    match FirstAt(ItemCells(items), h)
    case Some(i) =>
      PickupKeepsOnGrid(m, Remove(items, i), items[i].kind, h, xLen, yLen, second);
    case None =>
      BiteKeepsOnGrid(m, h, xLen, yLen);
  }

  /** A straight body on row 0 from x0 to x0 + n - 1, heading Right. */
  function Line(x0: int, n: nat): (r: seq<Segment>)
    ensures |r| == n
  {
    seq(n, i => Segment(x0 + i, 0, Right))
  }

  /**
   * A straight rightward body whose head is short of the right edge, with no
   * items about, just advances one cell to the right.
   */
  lemma TickAdvancesLine(x0: int, n: nat, xLen: int, yLen: int, second: bool)
    requires n >= 1 && x0 + n <= xLen
    ensures Tick(Line(x0, n), [], xLen, yLen, second) == Ticked(Line(x0 + 1, n), [])
  {
    var s := Line(x0, n);
    var m := MoveBody(s, xLen, yLen);
    assert m == Line(x0 + 1, n) by {
      forall i | 0 <= i < n ensures m[i] == Line(x0 + 1, n)[i] {
        assert s[i] == Segment(x0 + i, 0, Right);
      }
    }
    assert m[n - 1].At() == HeadTarget(s, xLen, yLen);
    TickOnlyMoves(s, [], xLen, yLen, second);
  }

  /**
   * A new game followed by three ticks with no items, on a canvas at least 16
   * wide: the body sits three cells further right, still 13 long and heading
   * Right.
   */
  lemma NewGameThreeTicks(xLen: int, yLen: int, s1: bool, s2: bool, s3: bool)
    requires xLen >= 16
    ensures var t1 := Tick(InitialBody(), [], xLen, yLen, s1);
      && t1 == Ticked(Line(2, 13), [])
      && var t2 := Tick(t1.segments, t1.items, xLen, yLen, s2);
      && t2 == Ticked(Line(3, 13), [])
      && var t3 := Tick(t2.segments, t2.items, xLen, yLen, s3);
      && t3 == Ticked(Line(4, 13), [])
      && forall i :: 0 <= i < 13 ==> t3.segments[i] == Segment(i + 4, 0, Right)
  {
    assert InitialBody() == Line(1, 13);
    TickAdvancesLine(1, 13, xLen, yLen, s1);
    TickAdvancesLine(2, 13, xLen, yLen, s2);
    TickAdvancesLine(3, 13, xLen, yLen, s3);
  }
}
