/**
 * The game state `App` of the snake game, updated in place as the source
 * does: the body and the items are sequences that the methods reassign, and
 * each method is proved to agree with the value-level definitions in
 * engine.dfy and placement.dfy. Also the arrow-key guard and the frame
 * countdown of the main loop that schedules item placement.
 */
module Game {
  import opened Grid
  import opened Engine
  import opened Placement

  /**
   * The arrow-key guard: the requested heading is taken unless the current one
   * is its opposite, so the head never turns back on itself.
   */
  function Steer(current: Direction, requested: Direction): (r: Direction)
    ensures r == requested || r == current
    ensures r != Opposite(current)
    ensures r == requested <==> current != Opposite(requested)
  {
    if current != Opposite(requested) then requested else current
  }

  /**
   * The guard looks only at the head's heading at the time of the key, so two
   * keys between ticks can still turn the head back on itself: Right, then Up,
   * then Left.
   */
  lemma TwoKeysReverse()
    ensures Steer(Steer(Right, Up), Left) == Left == Opposite(Right)
  {
  }

  /**
   * The consequence on the next tick: a three-segment body heading Right whose
   * head was turned Up and then Left moves its head onto the tail's new cell
   * and bites it off, leaving two segments heading Left.
   */
  lemma TwoKeysBite(second: bool)
    ensures var body := [Segment(1, 0, Right), Segment(2, 0, Right), Segment(3, 0, Right)];
      var steered := body[2 := body[2].(direction := Steer(Steer(body[2].direction, Up), Left))];
      Tick(steered, [], 10, 10, second) == Ticked([Segment(3, 0, Left), Segment(2, 0, Left)], [])
  {
    var steered := [Segment(1, 0, Right), Segment(2, 0, Right), Segment(3, 0, Left)];
    var m := MoveBody(steered, 10, 10);
    assert m[0] == Segment(2, 0, Right) && m[2].At() == Cell(2, 0);
    TickBites(steered, [], 10, 10, second, 0);
    assert m[1..] == [Segment(3, 0, Left), Segment(2, 0, Left)];
  }

  /** Frames between two item placements. */
  const ItemPeriod := 15

  /**
   * One frame of the item schedule: at 0 items are generated and the counter
   * is reset to 15; then it counts down by one. Yields whether to generate
   * and the counter for the next frame.
   */
  function Countdown(needItemsIn: int): (r: (bool, int))
    ensures r.0 <==> needItemsIn == 0
  {
    var n := if needItemsIn == 0 then ItemPeriod else needItemsIn;
    (needItemsIn == 0, n - 1)
  }

  /** The counter at the start of frame `frames`, starting from 0. */
  function CounterAt(frames: nat): (r: int)
    ensures 0 <= r < ItemPeriod
    decreases frames
  {
    if frames == 0 then 0 else Countdown(CounterAt(frames - 1)).1
  }

  /**
   * Items are generated on the first frame and then every 15th frame, and on
   * no other: frame 15q + r (with r < 15) starts with counter 15 - r, or 0
   * when r is 0.
   */
  lemma {:induction false} ItemsEveryPeriod(q: nat, r: nat)
    requires r < ItemPeriod
    ensures CounterAt(ItemPeriod * q + r) == if r == 0 then 0 else ItemPeriod - r
    ensures Countdown(CounterAt(ItemPeriod * q + r)).0 <==> r == 0
    decreases ItemPeriod * q + r
  {
    if r > 0 {
      ItemsEveryPeriod(q, r - 1);
    } else if q > 0 {
      ItemsEveryPeriod(q - 1, ItemPeriod - 1);
      assert ItemPeriod * q - 1 == ItemPeriod * (q - 1) + (ItemPeriod - 1);
    }
  }

  class App {
    var segments: seq<Segment>
    var items: seq<Item>
    var playing: bool
    var canvasXLength: int
    var canvasYLength: int

    /** The body is never empty. */
    ghost predicate Valid()
      reads this
    {
      |segments| >= 1
    }

    /** `App::new`: the 13-segment body heading Right, no items, a 10 by 10 canvas. */
    constructor ()
      ensures Valid()
      ensures segments == InitialBody() && items == []
      ensures !playing && canvasXLength == 10 && canvasYLength == 10
    {
      segments := InitialBody();
      items := [];
      playing := false;
      canvasXLength := 10;
      canvasYLength := 10;
    }

    /** `App::set_heading`: only the head's heading changes. */
    method SetHeading(direction: Direction)
      requires Valid()
      modifies this`segments
      ensures Valid() && |segments| == |old(segments)|
      ensures segments[|segments| - 1] == old(segments)[|segments| - 1].(direction := direction)
      ensures segments[..|segments| - 1] == old(segments)[..|segments| - 1]
    {
      var headIndex := |segments| - 1;
      segments := segments[headIndex := segments[headIndex].(direction := direction)];
    }

    /**
     * An arrow key while playing: the head takes the requested heading unless
     * that would reverse it; nothing else changes.
     */
    method HandleArrow(requested: Direction)
      requires Valid()
      modifies this`segments
      ensures Valid() && |segments| == |old(segments)|
      ensures var oldHead := old(segments)[|segments| - 1];
        segments[|segments| - 1] == oldHead.(direction := Steer(oldHead.direction, requested))
      ensures segments[|segments| - 1].direction != Opposite(old(segments)[|segments| - 1].direction)
      ensures segments[..|segments| - 1] == old(segments)[..|segments| - 1]
    {
      var currentHeading := segments[|segments| - 1].direction;
      if currentHeading != Opposite(requested) {
        SetHeading(requested);
      }
    }

    /**
     * `App::update`: one tick, run in place. `second` is the random choice of
     * heading should the head hit a boulder. `ok` is false when the program
     * panics (a boulder hit by a one-segment body).
     */
    method Update(second: bool) returns (ok: bool)
      requires Valid()
      modifies this`segments, this`items
      ensures var r := Tick(old(segments), old(items), canvasXLength, canvasYLength, second);
        ok == r.Ticked? && (ok ==> segments == r.segments && items == r.items)
      ensures ok ==> Valid()
    {
      ghost var segs0, items0 := segments, items;
      ghost var r := Tick(segs0, items0, canvasXLength, canvasYLength, second);
      MoveSegments();
      ghost var m := segments;
      var headX, headY := segments[|segments| - 1].x, segments[|segments| - 1].y;
      ghost var h := Cell(headX, headY);
      assert h == HeadTarget(segs0, canvasXLength, canvasYLength);

      // The first item at the head's cell, if any, is picked up
      var j := 0;
      while j < |items|
        invariant 0 <= j <= |items|
        invariant segments == m && items == items0
        invariant forall p :: 0 <= p < j ==> items[p].At() != h
      {
        if headX == items[j].x && headY == items[j].y {
          assert r == Pickup(m, Remove(items, j), items[j].kind, h, canvasXLength, canvasYLength, second) by {
            FirstAtIs(ItemCells(items), h, j);
            TickPicksUp(segs0, items0, canvasXLength, canvasYLength, second, j);
          }
          ok := PickUp(j, second);
          return;
        }
        j := j + 1;
      }
      assert h !in ItemCells(items);

      // Otherwise the head may bite the body
      assert r == Ticked(Bite(m, h), items) by {
        TickMisses(segs0, items0, canvasXLength, canvasYLength, second);
      }
      BiteBody(headX, headY);
      ok := true;
    }

    /** The movement loop of `App::update`. */
    method MoveSegments()
      requires Valid()
      modifies this`segments
      ensures segments == MoveBody(old(segments), canvasXLength, canvasYLength)
      ensures Valid()
    {
      ghost var segs0 := segments;
      var i := 0;
      while i < |segments|
        invariant 0 <= i <= |segments| == |segs0|
        invariant forall k :: 0 <= k < i ==> segments[k] == Moved(segs0, k, canvasXLength, canvasYLength)
        invariant forall k :: i <= k < |segments| ==> segments[k] == segs0[k]
      {
        var c := Step(segments[i].At(), segments[i].direction, canvasXLength, canvasYLength);
        var moved := segments[i].(x := c.x, y := c.y);
        if i < |segments| - 1 && moved.direction != segments[i + 1].direction {
          moved := moved.(direction := segments[i + 1].direction);
        }
        assert moved == Moved(segs0, i, canvasXLength, canvasYLength);
        segments := segments[i := moved];
        i := i + 1;
      }
      assert segments == MoveBody(segs0, canvasXLength, canvasYLength);
    }

    /**
     * The effect of the item at index `j` on the moved body, which it leaves
     * in `Pickup`'s state; `ok` is false on the boulder panic.
     */
    method PickUp(j: nat, second: bool) returns (ok: bool)
      requires Valid() && j < |items|
      modifies this`segments, this`items
      ensures var h := old(segments)[|old(segments)| - 1].At();
        var r := Pickup(old(segments), Remove(old(items), j), old(items)[j].kind, h,
                        canvasXLength, canvasYLength, second);
        ok == r.Ticked? && (ok ==> segments == r.segments && items == r.items)
    {
      ok := true;
      var item := items[j];
      items := items[..j] + items[j + 1..];
      match item.kind {
        case Apple | Mushroom =>
          var tail := segments[0];
          var c := StepBack(tail.At(), tail.direction, canvasXLength, canvasYLength);
          segments := [Segment(c.x, c.y, tail.direction)] + segments;
        case Hedgehog =>
          if |segments| > 1 {
            segments := segments[1..];
          }
        case Boulder =>
          var headIndex := |segments| - 1;
          var head := segments[headIndex];
          segments := segments[headIndex := head.(direction := Perpendicular(head.direction, second))];
          var sideways := Step(segments[headIndex].At(), segments[headIndex].direction, canvasXLength, canvasYLength);
          segments := segments[headIndex := segments[headIndex].(x := sideways.x, y := sideways.y)];
          if headIndex == 0 {
            // `head_index - 1` underflows: the program panics
            return false;
          }
          var back := StepBack(segments[headIndex].At(), segments[headIndex - 1].direction, canvasXLength, canvasYLength);
          segments := segments[headIndex := segments[headIndex].(x := back.x, y := back.y)];
          segments := segments[headIndex - 1 := segments[headIndex - 1].(direction := segments[headIndex].direction)];
          items := items + [Item(Boulder, head.x, head.y)];
      }
    }

    /**
     * The self-bite check of `App::update`: the head at (`headX`, `headY`) is
     * compared with every other segment from the tail on, and the first match
     * cuts the body.
     */
    method BiteBody(headX: int, headY: int)
      requires Valid() && segments[|segments| - 1].At() == Cell(headX, headY)
      modifies this`segments
      ensures segments == Bite(old(segments), Cell(headX, headY))
    {
      ghost var m := segments;
      ghost var h := Cell(headX, headY);
      var initialBodyLength := |segments| - 1;
      var k := 0;
      while k < initialBodyLength
        invariant 0 <= k <= initialBodyLength == |m| - 1
        invariant segments == m
        invariant forall p :: 0 <= p < k ==> segments[p].At() != h
      {
        if headX == segments[k].x && headY == segments[k].y {
          BiteAt(m, h, k);
          CutTail(initialBodyLength - k);
          return;
        }
        k := k + 1;
      }
      BiteMisses(m, h);
    }

    /** The self-bite cut: segments leave from the tail until `length` remain. */
    method CutTail(length: nat)
      requires length <= |segments|
      modifies this`segments
      ensures segments == old(segments)[|old(segments)| - length..]
    {
      ghost var segs0 := segments;
      while |segments| > length
        invariant length <= |segments| <= |segs0|
        invariant segments == segs0[|segs0| - |segments|..]
        decreases |segments|
      {
        segments := segments[1..];
      }
    }

    /**
     * `App::generate_item`: appends one beneficial item and then, while the
     * chance comes up, harmful ones, each at a drawn cell checked once against
     * the segments and the items. `draw`, `pick` and `extra` stand for the
     * random generator. `ok` is false when the canvas leaves a coordinate
     * range empty, where `gen_range` panics before anything is appended.
     */
    method GenerateItem(draw: nat -> Cell, pick: nat -> bool, extra: nat) returns (ok: bool)
      modifies this`items
      ensures ok == CanSpawn(canvasXLength, canvasYLength)
      ensures items == old(items) + (if ok then Generated(segments, old(items), draw, pick, extra) else [])
    {
      if !CanSpawn(canvasXLength, canvasYLength) {
        return false;
      }
      ok := true;
      ghost var segs := segments;
      ghost var target := items + Generated(segs, items, draw, pick, extra);
      var generateDestructiveItem := false;
      var n: nat := 0;
      var k: nat := 0;
      while true
        invariant k <= extra && segments == segs
        invariant generateDestructiveItem == (k > 0)
        invariant target == items + Spawn(segs, items, draw, pick, n, k, extra)
        decreases extra - k
      {
        SpawnStep(segs, items, draw, pick, n, k, extra);
        n := PlaceItem(n, Candidate(generateDestructiveItem, pick(k)), draw);
        if k == extra {
          // the 20% chance did not come up
          break;
        }
        generateDestructiveItem := true;
        k := k + 1;
      }
    }

    /**
     * One item of `App::generate_item`: draw `n` is checked against the snake
     * and then the items, and the accepted cell is appended with `kind`.
     * Yields the index of the next unused draw.
     */
    method PlaceItem(n: nat, kind: ItemKind, draw: nat -> Cell) returns (next: nat)
      modifies this`items
      ensures var r := Place(segments, old(items), draw, n, kind);
        items == old(items) + [r.0] && next == r.1
    {
      var c, n1 := ScanSegments(draw(n), n + 1, draw);
      c, next := ScanItems(c, n1, draw);
      items := items + [Item(kind, c.x, c.y)];
    }

    /**
     * The check of a drawn cell against the snake in `App::generate_item`:
     * every segment is visited once, and a hit replaces the cell by the next
     * draw. `n` is the index of the next unused draw.
     */
    method ScanSegments(c0: Cell, n0: nat, draw: nat -> Cell) returns (c: Cell, n: nat)
      ensures (c, n) == Rescan(c0, SegmentCells(segments), draw, n0)
    {
      c, n := c0, n0;
      var i := 0;
      while i < |segments|
        invariant 0 <= i <= |segments|
        invariant Rescan(c, SegmentCells(segments)[i..], draw, n) == Rescan(c0, SegmentCells(segments), draw, n0)
      {
        assert SegmentCells(segments)[i..][1..] == SegmentCells(segments)[i + 1..];
        if segments[i].x == c.x && segments[i].y == c.y {
          c := draw(n);
          n := n + 1;
        }
        i := i + 1;
      }
      assert SegmentCells(segments)[i..] == [];
    }

    /** The same check of a cell against the items present, in list order. */
    method ScanItems(c0: Cell, n0: nat, draw: nat -> Cell) returns (c: Cell, n: nat)
      ensures (c, n) == Rescan(c0, ItemCells(items), draw, n0)
    {
      c, n := c0, n0;
      var i := 0;
      while i < |items|
        invariant 0 <= i <= |items|
        invariant Rescan(c, ItemCells(items)[i..], draw, n) == Rescan(c0, ItemCells(items), draw, n0)
      {
        assert ItemCells(items)[i..][1..] == ItemCells(items)[i + 1..];
        if items[i].x == c.x && items[i].y == c.y {
          c := draw(n);
          n := n + 1;
        }
        i := i + 1;
      }
      assert ItemCells(items)[i..] == [];
    }

    /**
     * One frame of the main loop while playing: the canvas takes the terminal's
     * size, then the countdown decides whether items are generated. Yields the
     * counter for the next frame; `ok` is false when generation panics.
     */
    method Frame(width: nat, height: nat, needItemsIn: int, draw: nat -> Cell, pick: nat -> bool, extra: nat)
      returns (next: int, ok: bool)
      modifies this`canvasXLength, this`canvasYLength, this`items
      ensures canvasXLength == width && canvasYLength == height
      ensures next == Countdown(needItemsIn).1
      ensures ok == (needItemsIn != 0 || CanSpawn(width, height))
      ensures ok ==>
        items == old(items) + (if needItemsIn == 0 then Generated(segments, old(items), draw, pick, extra) else [])
    {
      canvasXLength := width;
      canvasYLength := height;
      next := needItemsIn;
      ok := true;
      if next == 0 {
        ok := GenerateItem(draw, pick, extra);
        next := ItemPeriod;
      }
      next := next - 1;
    }
  }
}
