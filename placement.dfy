/**
 * Item placement (`App::generate_item`) as functions on values.
 *
 * The random generator is replaced by oracles: `draw(n)` is the n-th pair of
 * coordinates drawn by `random_coordinates!`, `pick(k)` says whether the k-th
 * item takes the second of its two candidate kinds, and `extra` is the number
 * of times the 20% chance of another, harmful, item came up before it first
 * failed.
 */
module Placement {
  import opened Grid
  import opened Engine

  /** Both `gen_range` calls of `random_coordinates!` have a non-empty range. */
  predicate CanSpawn(xLen: int, yLen: int)
    ensures CanSpawn(xLen, yLen) <==> InSpawnArea(Cell(2, 1), xLen, yLen)
  {
    xLen - 1 > 2 && yLen - 1 > 1
  }

  /** The cells `random_coordinates!` draws from: 2 <= x < X - 1 and 1 <= y < Y - 1. */
  predicate InSpawnArea(c: Cell, xLen: int, yLen: int)
    ensures InSpawnArea(c, xLen, yLen) ==> Interior(c, xLen, yLen) && OnGrid(c, xLen, yLen)
  {
    2 <= c.x < xLen - 1 && 1 <= c.y < yLen - 1
  }

  /** The spawn area is never empty when both ranges are non-empty, and lies on the grid. */
  lemma SpawnAreaOnGrid(c: Cell, xLen: int, yLen: int)
    requires InSpawnArea(c, xLen, yLen)
    ensures CanSpawn(xLen, yLen) && OnGrid(c, xLen, yLen) && Interior(c, xLen, yLen)
  {
  }

  /**
   * The kind chosen for an item: Apple or Mushroom normally, Hedgehog or
   * Boulder once the chain of harmful items has started.
   */
  function Candidate(destructive: bool, second: bool): (k: ItemKind)
    ensures destructive <==> (k == Hedgehog || k == Boulder)
  {
    if destructive then (if second then Boulder else Hedgehog)
    else (if second then Mushroom else Apple)
  }

  /**
   * One pass of the occupancy check over `cells`: whenever the candidate sits
   * on the cell being scanned, the next draw replaces it and the scan goes on
   * with the following cell. Yields the accepted cell and the index of the
   * next unused draw.
   */
  function Rescan(c: Cell, cells: seq<Cell>, draw: nat -> Cell, n: nat): (r: (Cell, nat))
    ensures r.1 >= n
    ensures r.1 == n ==> r.0 == c
    ensures r.1 > n ==> r.0 == draw(r.1 - 1)
    decreases |cells|
  {
    if cells == [] then (c, n)
    else if cells[0] == c then Rescan(draw(n), cells[1..], draw, n + 1)
    else Rescan(c, cells[1..], draw, n)
  }

  /** The candidate is kept without a redraw exactly when it is free of every scanned cell. */
  lemma {:induction false} RescanKeepsFree(c: Cell, cells: seq<Cell>, draw: nat -> Cell, n: nat)
    ensures Rescan(c, cells, draw, n).1 == n <==> c !in cells
    decreases |cells|
  {
    if cells != [] {
      RescanKeepsFree(c, cells[1..], draw, n);
      assert cells == [cells[0]] + cells[1..];
    }
  }

  /**
   * The pass is not re-run: a replacement is compared only with the cells
   * after the one it replaced, so it can land on an earlier occupied cell.
   */
  lemma RescanSinglePass()
    ensures var cells := [Cell(2, 1), Cell(3, 1)];
      var r := Rescan(Cell(3, 1), cells, (k: nat) => Cell(2, 1), 0);
      r == (Cell(2, 1), 1) && r.0 in cells
  {
    var cells := [Cell(2, 1), Cell(3, 1)];
    var draw := (k: nat) => Cell(2, 1);
    assert cells[1..][1..] == [];
    assert Rescan(Cell(3, 1), cells, draw, 0) == Rescan(Cell(3, 1), cells[1..], draw, 0);
  }

  /**
   * One item of `generate_item`: draw `n` is checked once against the
   * segments and then against the items present, and the accepted cell gets
   * `kind`. Yields the item and the index of the next unused draw.
   */
  function Place(segs: seq<Segment>, items: seq<Item>, draw: nat -> Cell, n: nat, kind: ItemKind): (r: (Item, nat))
    ensures r.0.kind == kind && r.1 > n
  {
    var (c1, n1) := Rescan(draw(n), SegmentCells(segs), draw, n + 1);
    var (c2, n2) := Rescan(c1, ItemCells(items), draw, n1);
    (Item(kind, c2.x, c2.y), n2)
  }

  /**
   * The items one `generate_item` call appends, from draw `n` and item `k` up
   * to item `last`: each is placed against the segments and the items present
   * (including those appended earlier in the same call); item 0 is beneficial,
   * every later one harmful.
   */
  function Spawn(segs: seq<Segment>, items: seq<Item>, draw: nat -> Cell, pick: nat -> bool,
                 n: nat, k: nat, last: nat): (r: seq<Item>)
    requires k <= last
    ensures |r| == last - k + 1
    decreases last - k
  {
    var placed := Place(segs, items, draw, n, Candidate(k > 0, pick(k)));
    if k == last then [placed.0]
    else [placed.0] + Spawn(segs, items + [placed.0], draw, pick, placed.1, k + 1, last)
  }

  /**
   * Appending the items one at a time: placing item `k` and then the rest
   * against the grown list yields the same list as the whole chain.
   */
  lemma SpawnStep(segs: seq<Segment>, items: seq<Item>, draw: nat -> Cell, pick: nat -> bool,
                  n: nat, k: nat, last: nat)
    requires k <= last
    ensures var placed := Place(segs, items, draw, n, Candidate(k > 0, pick(k)));
      && (k == last ==> items + Spawn(segs, items, draw, pick, n, k, last) == items + [placed.0])
      && (k < last ==> items + Spawn(segs, items, draw, pick, n, k, last) ==
                       (items + [placed.0]) + Spawn(segs, items + [placed.0], draw, pick, placed.1, k + 1, last))
  {
    var placed := Place(segs, items, draw, n, Candidate(k > 0, pick(k)));
    var item := placed.0;
    if k < last {
      var later := Spawn(segs, items + [item], draw, pick, placed.1, k + 1, last);
      assert Spawn(segs, items, draw, pick, n, k, last) == [item] + later;
      assert items + ([item] + later) == (items + [item]) + later;
    } else {
      assert Spawn(segs, items, draw, pick, n, k, last) == [item];
    }
  }

  /** What one `generate_item` call appends. */
  function Generated(segs: seq<Segment>, items: seq<Item>, draw: nat -> Cell, pick: nat -> bool,
                     extra: nat): (r: seq<Item>)
    ensures |r| == extra + 1
    ensures r[0].kind == Apple || r[0].kind == Mushroom
    ensures forall j :: 1 <= j < |r| ==> r[j].kind == Hedgehog || r[j].kind == Boulder
  {
    SpawnKinds(segs, items, draw, pick, 0, 0, extra);
    Spawn(segs, items, draw, pick, 0, 0, extra)
  }

  /**
   * Kinds along a chain: the first item is harmful exactly when the chain has
   * already started, every later one is harmful.
   */
  lemma {:induction false} SpawnKinds(segs: seq<Segment>, items: seq<Item>, draw: nat -> Cell, pick: nat -> bool,
                                      n: nat, k: nat, last: nat)
    requires k <= last
    ensures var r := Spawn(segs, items, draw, pick, n, k, last);
      && (k > 0 <==> r[0].kind == Hedgehog || r[0].kind == Boulder)
      && forall j :: 1 <= j < |r| ==> r[j].kind == Hedgehog || r[j].kind == Boulder
    decreases last - k
  {
    if k < last {
      var placed := Place(segs, items, draw, n, Candidate(k > 0, pick(k)));
      SpawnKinds(segs, items + [placed.0], draw, pick, placed.1, k + 1, last);
    }
  }

  /** When every draw lies in the spawn area, so does a placed item. */
  lemma PlaceInArea(segs: seq<Segment>, items: seq<Item>, draw: nat -> Cell, n: nat, kind: ItemKind,
                    xLen: int, yLen: int)
    requires forall i: nat :: InSpawnArea(draw(i), xLen, yLen)
    ensures InSpawnArea(Place(segs, items, draw, n, kind).0.At(), xLen, yLen)
  {
    var (c1, n1) := Rescan(draw(n), SegmentCells(segs), draw, n + 1);
    assert InSpawnArea(c1, xLen, yLen);
  }

  /** When every draw lies in the spawn area, so does every appended item. */
  lemma {:induction false} SpawnInArea(segs: seq<Segment>, items: seq<Item>, draw: nat -> Cell, pick: nat -> bool,
                                       n: nat, k: nat, last: nat, xLen: int, yLen: int)
    requires k <= last
    requires forall i: nat :: InSpawnArea(draw(i), xLen, yLen)
    ensures forall it :: it in Spawn(segs, items, draw, pick, n, k, last) ==>
      InSpawnArea(it.At(), xLen, yLen)
    decreases last - k
  {
    var placed := Place(segs, items, draw, n, Candidate(k > 0, pick(k)));
    PlaceInArea(segs, items, draw, n, Candidate(k > 0, pick(k)), xLen, yLen);
    if k < last {
      SpawnInArea(segs, items + [placed.0], draw, pick, placed.1, k + 1, last, xLen, yLen);
    }
  }

  /**
   * A draw that is free of every segment and item is placed as drawn, using
   * no further draw; a draw on an occupied cell is replaced.
   */
  lemma PlaceTakesFreeDraw(segs: seq<Segment>, items: seq<Item>, draw: nat -> Cell, n: nat, kind: ItemKind)
    ensures var r := Place(segs, items, draw, n, kind);
      (draw(n) !in SegmentCells(segs) && draw(n) !in ItemCells(items)) <==> r.1 == n + 1
    ensures var r := Place(segs, items, draw, n, kind);
      r.1 == n + 1 ==> r.0.At() == draw(n)
  {
    RescanKeepsFree(draw(n), SegmentCells(segs), draw, n + 1);
    RescanKeepsFree(draw(n), ItemCells(items), draw, n + 1);
  }

  /**
   * One `generate_item` call appends `extra + 1` items: an Apple or Mushroom
   * first, then only Hedgehogs and Boulders, all inside the spawn area when the
   * draws are.
   */
  lemma GeneratedItems(segs: seq<Segment>, items: seq<Item>, draw: nat -> Cell, pick: nat -> bool,
                       extra: nat, xLen: int, yLen: int)
    requires forall i: nat :: InSpawnArea(draw(i), xLen, yLen)
    ensures var r := Generated(segs, items, draw, pick, extra);
      && |r| == extra + 1
      && (r[0].kind == Apple || r[0].kind == Mushroom)
      && (forall j :: 1 <= j < |r| ==> r[j].kind == Hedgehog || r[j].kind == Boulder)
      && (forall it :: it in r ==> InSpawnArea(it.At(), xLen, yLen))
  {
    SpawnKinds(segs, items, draw, pick, 0, 0, extra);
    SpawnInArea(segs, items, draw, pick, 0, 0, extra, xLen, yLen);
  }
}
