# rusty-snake simulation core in Dafny

A model of the terminal snake game's simulation core, with proofs about it. The
game is in `src/main.rs` of the original repository. The model covers:

- the coordinate wrap macros `increment_coordinate!` and `decrement_coordinate!`;
- the cell draw `random_coordinates!`;
- `App::new` and `App::set_heading`;
- the arrow-key reversal guard;
- the per-tick transition `App::update`;
- item placement `App::generate_item`;
- the main loop's 15-frame item countdown.

The project has four modules.

- `Grid` (grid.dfy) holds headings, cells and the wrap arithmetic. The wraps are
  not a modulo: stepping up past the bound `B` gives `B - v - 1`, so `B` goes to
  -1. Stepping down from 0 or below gives `B + v`, so 0 goes to `B`. Both keep
  the range [-1, B] (the decrement for a non-negative `B`). Going up, every
  coordinate in [-1, B] comes back after `B + 2` steps. Going down, every
  coordinate in [0, B] comes back after `B + 1` steps. For `B >= 1`, -1 goes to
  `B - 1` and is never reached again; for `B = 0` it stays at -1. The range
  [-1, B] is kept only from a start inside it on a canvas of fixed size: a
  terminal that shrinks, or one too narrow for the initial body, can give
  coordinates below -1.
- `Engine` (engine.dfy) gives the tick as functions on values.
  - `MoveBody` is the movement phase.
  - `Pickup` is the effect of the first item at the head's new cell.
  - `Bite` is the self-bite cut.
  - `Tick` is the whole transition. Its result is `Panicked` when `head_index - 1`
    underflows, which happens when a one-segment body hits a boulder.
- `Placement` (placement.dfy) gives `generate_item` as functions.
  - `Rescan` is one pass of the occupancy check.
  - `Place` places one item.
  - `Spawn` is the chain of items one call appends.
- `Game` (game.dfy) holds the class `App`. Its fields are `segments`, `items`,
  `playing` and the canvas size. Its methods run the source's loops on those
  fields:
  - `Update` does the movement loop, the item scan, the pickup and the bite
    scan with its `remove(0)` loop;
  - `GenerateItem` does the outer `loop`, the two scans and the `push`.

  Each method is proved to leave exactly the state that the `Engine` or
  `Placement` function gives. The properties are proved about those functions.

Coordinates are `int`. The source stores them as `f64`, but they only ever hold
whole numbers:

- the initial body is integral;
- draws are `usize` values;
- canvas sizes are `u16` values;
- the only arithmetic is ±1, `B - v - 1` and `B + v`.

Randomness is modelled by parameters:

- `second` for the boulder's choice between the two perpendicular headings;
- `draw(n)` for the n-th coordinate pair that `random_coordinates!` draws;
- `pick(k)` for the `choose` between the two candidate kinds of item `k`;
- `extra` for how many times `gen_bool(0.2)` came up true before it first
  failed.

A `gen_range` with an empty range panics. So does the `head_index - 1`
underflow. Both are modelled as a false `ok` result.

The self-bite follows the code. When the head lands on segment `i`, the
`remove(0)` loop runs until `len - 1 - i` segments remain. The new body is
therefore segments `i + 1 ..`, and the bitten segment is removed too.

## Model

| member | source | states |
|---|---|---|
| Grid.WrapIncrement | src/main.rs:68-77 | stays in [-1, bound] when started there; strictly increases below the bound |
| Grid.WrapDecrement | src/main.rs:79-88 | stays in [-1, bound] for a non-negative bound; strictly decreases above 0 |
| Grid.DecrementUndoesIncrement | src/main.rs:68-88 | decrement(increment(v)) == v for 0 <= v < B |
| Grid.IncrementUndoesDecrement | src/main.rs:68-88 | increment(decrement(v)) == v for 0 < v <= B |
| Grid.WrapEdges | src/main.rs:68-88 | decrement(0) == B and increment(B) == -1, so at the edge decrement(increment(B)) is B - 1 and not B |
| Grid.IncrementsSplit | src/main.rs:68-77 | m + n increments are m increments followed by n increments |
| Grid.DecrementsSplit | src/main.rs:79-88 | m + n decrements are m decrements followed by n decrements |
| Grid.IncrementsBelowBound | src/main.rs:68-77 | below the bound, n increments add n |
| Grid.DecrementsAboveZero | src/main.rs:79-88 | above 0, n decrements subtract n |
| Grid.IncrementOrbit | src/main.rs:68-77 | going up, every coordinate in [-1, B] returns after B + 2 steps |
| Grid.DecrementOrbit | src/main.rs:79-88 | going down, every coordinate in [0, B] returns after B + 1 steps |
| Grid.DecrementsStayNonNegative | src/main.rs:79-88 | going down, a coordinate in [0, B] stays in [0, B] |
| Grid.LeavesMinusOne | src/main.rs:79-88 | going down from -1, a positive bound never returns to -1 after the first step; a zero bound keeps -1 fixed |
| Grid.DecrementsFixed | src/main.rs:79-88 | with bound 0, any number of decrements of -1 gives -1 |
| Grid.Opposite | src/main.rs:400-415 | the reversing heading differs from the given one and lies on the same axis |
| Grid.Perpendicular | src/main.rs:235-240 | the boulder's new heading lies on the other axis |
| Grid.Step | src/main.rs:190-195 | Up/Down change only y and Right/Left change only x; the step keeps [-1, B] |
| Grid.StepBackUndoesStep | src/main.rs:248-254 | inside the canvas, stepping back against a heading undoes a step along it |
| Grid.StepUndoesStepBack | src/main.rs:210-217 | inside the canvas, a step along a heading undoes stepping back against it, so a new tail is one step behind the old tail |
| Grid.StepsCommute | src/main.rs:241-254 | steps along different axes commute |
| Grid.StepBack | src/main.rs:213-218 | the reverse match (also at src/main.rs:249-254): a step back against a heading moves only along that heading's axis and keeps [-1, B] |
| Engine.InitialBody | src/main.rs:100-115 | 13 segments; segment i is at (i + 1, 0) heading Right |
| Engine.FirstAt | src/main.rs:206-207 | the first index holding the cell, with no earlier index holding it; None exactly when the cell is absent |
| Engine.FirstAtIs | src/main.rs:206-207 | an index holding the cell with no earlier match is the one `FirstAt` returns |
| Engine.Remove | src/main.rs:209 | `Vec::remove`: one shorter, earlier elements kept, later ones shifted down by one |
| Engine.MoveBody | src/main.rs:189-200 | the movement phase keeps the length |
| Engine.Moved | src/main.rs:189-200 | one iteration of the loop: the segment moves only along the axis of its own heading, then takes its successor's pre-tick heading; the head keeps its own |
| Engine.MoveShiftsDirections | src/main.rs:196-199 | after movement the headings are the old ones shifted one place towards the tail; the head keeps its own heading |
| Engine.MoveStepsEverySegment | src/main.rs:190-195 | every segment moves one wrapped step along its pre-tick heading |
| Engine.MoveKeepsOnGrid | src/main.rs:189-200 | on a fixed canvas, movement keeps a body that starts in [-1, B] there on both axes |
| Engine.TurnRipples | src/main.rs:189-200 | after n movement-only ticks, segment k has the old heading of segment k + n, or the head's heading once past the head |
| Engine.Deflect | src/main.rs:229-256 | the boulder deflection keeps the length |
| Engine.Grow | src/main.rs:211-220 | one segment inserted at index 0 with the old body kept at index + 1; the new tail has the old tail's heading and lies on the same line along that heading |
| Engine.Pickup | src/main.rs:209-263 | panics exactly for a boulder on a one-segment body; otherwise the body keeps at least one and gains at most one segment; only a boulder puts an item back, a Boulder at the head's cell at the end of the list |
| Engine.Bite | src/main.rs:268-278 | the body keeps between 1 and all of its segments, and keeps its head |
| Engine.Tick | src/main.rs:187-279 | a tick grows the body by at most one, never empties it, and removes at most one item |
| Engine.TickPicksUp | src/main.rs:205-266 | when item i is the first at the head's new cell, that item is removed and acted on, and the bite check is skipped |
| Engine.TickMisses | src/main.rs:205-279 | with no item at the head's new cell, the tick is the self-bite check on the moved body |
| Engine.TickGrows | src/main.rs:210-221 | Apple/Mushroom: the length grows by 1; the old segments are kept at index + 1; the new tail is one step behind the old tail, against its heading, with that heading; only that item is removed |
| Engine.TickShrinks | src/main.rs:222-228 | Hedgehog: the tail is removed only when the length is above 1, so the body is never empty; only that item is removed |
| Engine.TickDeflects | src/main.rs:229-262 | Boulder, length >= 2: the item count is kept and the last item is a Boulder at the head's cell; the head turns perpendicular; the segment before it takes the new heading; no other segment changes |
| Engine.BoulderSidesteps | src/main.rs:229-256 | Boulder inside the canvas: the head ends one step from its pre-tick cell along the new heading |
| Engine.TickPanics | src/main.rs:229-249 | the tick panics exactly when a one-segment body hits a boulder first |
| Engine.BiteAt | src/main.rs:270-277 | the first other segment the head meets is i, so the body becomes segments i + 1 .. |
| Engine.BiteMisses | src/main.rs:269-278 | when the head meets no other segment, the body is unchanged |
| Engine.TickBites | src/main.rs:268-278 | with no item hit and the head first meeting segment i, the body becomes the moved segments i + 1 .. of length len - 1 - i, the head is kept, and the items are unchanged |
| Engine.TickOnlyMoves | src/main.rs:187-279 | with no item and no other segment at the head's new cell, only movement happens |
| Engine.PickupKeepsOnGrid | src/main.rs:205-266 | every pickup keeps the body and the items in [-1, B] |
| Engine.BiteKeepsOnGrid | src/main.rs:268-278 | a self-bite keeps the body in [-1, B] |
| Engine.TickKeepsOnGrid | src/main.rs:187-279 | for a fixed canvas, a tick keeps every segment and item in [-1, B] |
| Engine.TickAdvancesLine | src/main.rs:187-279 | a straight rightward body short of the edge, with no items, just moves one cell right |
| Engine.NewGameThreeTicks | src/main.rs:100-121 | from `App::new` on a canvas at least 16 wide, three ticks with no items leave the body at x = 4..16, still heading Right |
| Placement.SpawnAreaOnGrid | src/main.rs:60-65 | a drawn cell lies inside the canvas; such a cell exists only when both ranges are non-empty |
| Placement.CanSpawn | src/main.rs:61-65 | both `gen_range` calls (made at src/main.rs:138 with the canvas size less one) have non-empty ranges exactly when the area's corner cell (2, 1) lies in it |
| Placement.InSpawnArea | src/main.rs:61-65 | a cell drawn from the two ranges lies strictly inside the canvas |
| Placement.Candidate | src/main.rs:167-171 | the kind is Hedgehog or Boulder exactly when the chain of harmful items has started |
| Placement.Rescan | src/main.rs:140-164 | the scan uses only later draws; it keeps the cell when no draw was used, and otherwise yields the last draw used |
| Placement.RescanKeepsFree | src/main.rs:140-164 | the drawn cell is kept with no redraw exactly when it is free of every scanned cell |
| Placement.RescanSinglePass | src/main.rs:142-164 | a replacement is not re-checked against earlier cells: it can land on an occupied cell |
| Placement.Place | src/main.rs:137-176 | the placed item has the chosen kind, and at least one draw is used |
| Placement.PlaceInArea | src/main.rs:60-65 | when every draw lies in the spawn area, so does the placed item |
| Placement.PlaceTakesFreeDraw | src/main.rs:137-164 | exactly one draw is used iff that draw is free of the snake and the items; the item is then placed there |
| Placement.Spawn | src/main.rs:133-184 | the chain from item k to item `last` appends last - k + 1 items |
| Placement.SpawnStep | src/main.rs:136-183 | appending items one at a time, each placed against the list grown so far, yields the whole chain |
| Placement.SpawnKinds | src/main.rs:167-182 | the first item is harmful exactly when the chain has started; every later one is harmful |
| Placement.SpawnInArea | src/main.rs:60-65 | every item in the chain lies in the spawn area when the draws do |
| Placement.GeneratedItems | src/main.rs:133-184 | one call appends extra + 1 items: an Apple or Mushroom, then only Hedgehogs and Boulders, all with 2 <= x < X - 1 and 1 <= y < Y - 1 |
| Placement.Generated | src/main.rs:133-184 | one call appends extra + 1 items: first an Apple or Mushroom, then only Hedgehogs and Boulders |
| Game.Steer | src/main.rs:393-415 | the head takes the requested heading exactly when it is not the current heading's opposite; the result is never the current heading's opposite |
| Game.TwoKeysReverse | src/main.rs:393-415 | the guard checks only the heading at the time of the key, so Up then Left between ticks turns a Right-heading head back on itself |
| Game.TwoKeysBite | src/main.rs:393-418 | the reversal from two keys makes the next tick a self-bite: a three-segment body heading Right, turned Up then Left, is cut to two segments heading Left |
| Game.Countdown | src/main.rs:343-348 | items are generated on a frame exactly when the counter is 0 |
| Game.CounterAt | src/main.rs:293-348 | the counter at the start of every frame lies in 0 .. 14 |
| Game.ItemsEveryPeriod | src/main.rs:293-348 | from 0, items are generated on frames 0, 15, 30, ... and no others; frame 15q + r begins with counter 15 - r, or 0 when r = 0 |
| Game.App.constructor | src/main.rs:100-121 | 13 segments at x = 1..13, y = 0, heading Right; no items; not playing; a 10 by 10 canvas |
| Game.App.SetHeading | src/main.rs:125-130 | only the head's heading changes; the length, all cells and every other heading stay the same |
| Game.App.HandleArrow | src/main.rs:393-415 | the head takes `Steer` of its heading; the new heading is never the opposite of the old one; nothing else changes |
| Game.App.Update | src/main.rs:187-279 | the new body and items are those of `Tick`, or `ok` is false when `Tick` panics; the body stays non-empty |
| Game.App.MoveSegments | src/main.rs:189-200 | the in-place loop leaves the body equal to `MoveBody` of the old body |
| Game.App.PickUp | src/main.rs:208-265 | the in-place `remove`, `insert(0, ..)`, `remove(0)` or `push` leaves the state `Pickup` gives |
| Game.App.BiteBody | src/main.rs:268-278 | the scan and the `remove(0)` loop leave the body equal to `Bite` of it |
| Game.App.CutTail | src/main.rs:273-275 | removing from the tail until `length` segments remain leaves the last `length` segments |
| Game.App.GenerateItem | src/main.rs:133-184 | `ok` says both coordinate ranges are non-empty; the old items stay as a prefix followed by exactly `Generated`; the segments are untouched |
| Game.App.PlaceItem | src/main.rs:137-176 | one item is appended, as `Place` gives it |
| Game.App.ScanSegments | src/main.rs:142-151 | the scan over the snake yields `Rescan` over the segment cells |
| Game.App.ScanItems | src/main.rs:152-162 | the scan over the items yields `Rescan` over the item cells |
| Game.App.Frame | src/main.rs:338-348 | the canvas takes the terminal size; items are generated only when the counter is 0; the next counter follows `Countdown` |

## Left out

- Terminal setup, the input and timer threads and the channel are not modelled. They are I/O and concurrency; key presses and ticks are method calls here.
- Rendering is not modelled: the canvas painting, the glyphs and the tongue check.
- The menu is not modelled: drawing it, moving the selection, and the `n` key that sets `playing`. `playing` is a field that only the constructor sets.
- The random generator's internals are not modelled, and neither is the 0.2 probability. Only their outcomes appear, as parameters.
- `f64` arithmetic is not modelled. Coordinates are integers, for the reasons given above.
- Game.App.Update: after a panic, the contract says nothing about the state, since the program stops there.
- Game.App.GenerateItem: the method does not require draws to lie in the spawn area. That fact is an assumption of `Placement.GeneratedItems`, because `gen_range` internals are not modelled.
- Frame-to-frame coupling of the oracles is not modelled. Each call takes its own `second`, `draw`, `pick` and `extra`, so one random stream is not threaded through the whole game.
- New items are not proved to avoid the snake or other items. The single rescan pass does not guarantee it (`Placement.RescanSinglePass`).
- The "end game at length 0" TODO is not modelled. The body never becomes empty anyway.
- The grid-range lemmas (`Engine.MoveKeepsOnGrid`, `Engine.TickKeepsOnGrid`) assume a body that starts in [-1, B] on a canvas of fixed size. A terminal resize between frames, or an initial body wider than the canvas, is not covered by them; the model still computes those cases.
