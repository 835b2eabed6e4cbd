# Random-strategy evolution simulation, modelled in Dafny

This project models the simulation engine of `evolve.py`, a small artificial-life
program. Creatures live on a `GRID_SIZE × GRID_SIZE` grid (50 × 50) together with
a duplicate-free list of food cells. On every frame each `'roaming'` creature
takes one random step: right, left, down, up, or stay. The step is dropped on
any axis where it would leave the grid. A creature that lands on food eats
that food. It is then marked `ate`/`'waiting'` and moved to a random edge cell,
where it stays for the rest of the day. After `DAY_LENGTH_FRAMES` (300) frames
the day ends:

- creatures that did not eat are dropped;
- survivors become roaming and unfed again, at fresh edge cells;
- `NUM_FOODS` (10) new food items are placed;
- the frame counter goes back to 0 and the day counter goes up by one.

The first day starts with `NUM_CREATURES` (10) roaming creatures at random cells.

Layout, one module per component:

- `seqs.dfy` (`Seqs`): duplicate-freedom and element sets of lists. Also
  `RemoveFirst`, which is Python's `list.remove`.
- `grid.dfy` (`Grid`): grid bounds, the boundary, `random_edge_position`
  (`EdgePosition`), the five move deltas and the clamped move, and how many
  distinct cells the grid holds.
- `food.dfy` (`Food`): `Place`, the food list `init_foods` builds from a
  sequence of drawn cells.
- `creatures.dfy` (`Creatures`): the creature record and one step of a creature
  (`Step`). Also a pass over the population (`Update`), the survivors filter
  and the survivors' reset (`Survivors`, `Respawn`), with the lemmas about them.
- `engine.dfy` (`Engine`): class `Simulation`. Its fields `foods`, `creatures`,
  `frameCounter` and `dayCount` are the source's module globals. Its methods
  are `init_foods`, `init_creatures`, `update_creatures` (with its loop body as
  `StepCreature`), `end_of_day` and one pass of the main loop (`Tick`). The
  module also holds the frame/day counter arithmetic.

Randomness is an explicit input. Each `random.choice` or `random.randint`
becomes a draw parameter that may be any in-range value, so every property
holds for every outcome of the generator:

- `StepDraw`: one move index and one edge draw per creature.
- `EdgeDraw`: a side and a coordinate along it.
- A sequence of drawn cells for `init_foods` and `init_creatures`.

`init_foods` keeps drawing until it has `NUM_FOODS` distinct cells. The model
consumes a given sequence of drawn cells. `InitFoods` requires that this
sequence holds at least `NUM_FOODS` distinct cells, because those are exactly
the runs in which the source's loop finishes. `PlacementBeyondCapacity` shows
that with more food than grid cells no sequence of in-grid draws ever
finishes. `PlacementFeasible` shows that with `NUM_FOODS ≤ GRID_SIZE²` some
sequence does.

Two facts about `evolve.py` that the model follows:

- `main` increments `frame_counter` (evolve.py:157) before it calls
  `update_creatures` (evolve.py:165). `Tick` does the same.
- Nothing in `evolve.py` checks that `NUM_FOODS ≤ GRID_SIZE²`. The constants
  (10 ≤ 2500) satisfy it, and `PlacementBeyondCapacity` states what happens
  without it.

## Model

| member | source | states |
|---|---|---|
| `Seqs.RemoveFirst` | evolve.py:121 | `list.remove` of a present element: the result is one shorter and, as a multiset, is the input minus exactly one copy of that element |
| `Seqs.RemoveFromDistinct` | evolve.py:120-121 | removing a present cell from a duplicate-free food list keeps it duplicate-free and removes exactly that cell from its set of cells |
| `Grid.EdgePosition` | evolve.py:39-49 | `random_edge_position` always returns an in-grid cell on the boundary, and it lies on the side that was drawn (top: y = 0, bottom: y = GRID_SIZE-1, left: x = 0, right: x = GRID_SIZE-1) |
| `Grid.BoundaryCellReachable` | evolve.py:41-49 | every in-grid boundary cell is the result of some valid edge draw, so the edge positions are exactly the boundary cells |
| `Grid.Move` | evolve.py:109-116 | from an in-grid cell the move stays in the grid; on each axis the coordinate takes the delta if and only if the new value is inside [0, GRID_SIZE-1] and is otherwise unchanged, independently of the other axis |
| `Grid.MoveIsUnitStep` | evolve.py:108-116 | a drawn move changes the position along at most one axis, by at most one cell |
| `Food.Place` | evolve.py:54-58 | placement only adds cells to those already placed and never goes past the target; `PlaceFacts` and `PlaceReachesTarget` state the rest of its contract |
| `Food.PlaceFacts` | evolve.py:54-58 | food placement keeps the list duplicate-free, never exceeds the target, only appends to the already placed cells, only places drawn cells, and stops short of the target only when every drawn cell is placed |
| `Food.PlaceReachesTarget` | evolve.py:55-58 | if the drawn cells include at least `target` distinct cells, placement ends with exactly `target` cells |
| `Food.PlacedInGrid` | evolve.py:56-58 | food placed from in-grid draws lies in the grid |
| `Food.PlacementBeyondCapacity` | evolve.py:55-58 | with a target above GRID_SIZE², no sequence of in-grid draws completes the placement: the source's loop would not terminate |
| `Food.PlacementFeasible` | evolve.py:55-58 | with a target of at most GRID_SIZE², there is a sequence of in-grid draws with enough distinct cells, and placement from it reaches the target |
| `Creatures.Step` | evolve.py:103-125 | a creature that is not roaming leaves itself and the food unchanged; a roaming creature that lands on food leaves one food item fewer and ends fed, waiting and on the boundary; one that misses keeps the food, moves to the clamped cell and keeps roaming (`StepKeepsInvariants` and `EatingRemovesThatFood` state the rest) |
| `Creatures.EatingRemovesThatFood` | evolve.py:119-125 | a roaming creature that lands on food removes exactly that cell (food count drops by one, the set of food cells loses only that cell, still duplicate-free), becomes `ate`/`Waiting`, and ends on the boundary |
| `Creatures.StepKeepsInvariants` | evolve.py:103-125 | one step keeps the creature in-grid with `Waiting` iff `ate`; a non-roaming creature and the food are untouched; a roaming creature that misses food moves to the clamped cell and stays roaming; food only shrinks, stays duplicate-free, and loses one item exactly when the creature becomes fed |
| `Creatures.Update` | evolve.py:102-125 | a pass over the population keeps the number of creatures |
| `Creatures.UpdateKeepsInvariants` | evolve.py:102-125 | a whole pass keeps every creature well-formed, never changes a creature that is not roaming, only removes food and keeps it duplicate-free, and the number of food items eaten equals the number of creatures newly fed |
| `Creatures.UpdateEatsAtMostRoaming` | evolve.py:102-125 | a pass eats at most one food item per roaming creature (the substantive bound); with the trivial bound that a list cannot lose more items than it has, at most min(F, r) for F food items and r roaming creatures |
| `Creatures.StarvationWithoutFood` | evolve.py:118-123 | with no food on the grid a pass feeds no creature |
| `Creatures.Survivors` | evolve.py:136 | the survivors list is never longer than the population |
| `Creatures.SurvivorsFacts` | evolve.py:136 | the survivors are exactly the creatures that ate: their number is the fed count, each one ate and comes from the population, and every creature that ate is among them |
| `Creatures.Reset` | evolve.py:138-141 | a reset survivor is well-formed, roaming and unfed, at the cell of its edge draw, which is on the boundary |
| `Creatures.Respawn` | evolve.py:138-141 | one reset creature per survivor, in order: creature k is well-formed, roaming and unfed at the cell of edge draw k (`NextDayPopulation` states the whole end-of-day population) |
| `Creatures.NextDayPopulation` | evolve.py:136-142 | the next day's population has one creature per fed creature, no more than before; each is roaming, unfed, well-formed and on the boundary at its drawn edge cell, so it depends on the old population only through the fed count |
| `Engine.NextCounters` | evolve.py:157-169 | one pass of the main loop moves the frame to (frame + 1) mod DAY_LENGTH_FRAMES, so it stays inside [0, DAY_LENGTH_FRAMES-1] between ticks, and the day advances by one exactly when the frame returns to 0 |
| `Engine.CountersCycle` | evolve.py:155-169 | starting from frame 0 on day 1, after n ticks the frame counter is n mod DAY_LENGTH_FRAMES and the day counter is 1 + n div DAY_LENGTH_FRAMES |
| `Engine.Simulation.constructor` | evolve.py:149-152 | the initial state: frame 0, day 1, exactly NUM_FOODS distinct in-grid food cells, and NUM_CREATURES roaming, unfed creatures at the drawn cells |
| `Engine.Simulation.InitFoods` | evolve.py:51-58 | `init_foods` leaves exactly NUM_FOODS distinct in-grid food cells: the first NUM_FOODS distinct drawn cells, in draw order |
| `Engine.Simulation.InitCreatures` | evolve.py:60-67 | `init_creatures` leaves NUM_CREATURES creatures; creature i is roaming and unfed at the i-th drawn cell |
| `Engine.Simulation.StepCreature` | evolve.py:103-125 | the loop body changes only creature i and the food list, exactly as one `Step` does |
| `Engine.Simulation.UpdateCreatures` | evolve.py:96-125 | `update_creatures` performs `Update` on the state and keeps the state consistent; population size unchanged, non-roaming creatures unchanged, food only shrinks, food eaten equals creatures newly fed and is at most the number of roaming creatures |
| `Engine.Simulation.EndOfDay` | evolve.py:127-146 | `end_of_day` keeps one reset creature per fed creature (population never grows), places exactly NUM_FOODS fresh food cells, sets the frame counter to 0 and increments the day counter, keeping the state consistent |
| `Engine.Simulation.Tick` | evolve.py:155-169 | one pass of the main loop keeps the state valid (frame inside the day), advances the counters by `NextCounters`, never grows the population, and leaves the state of `update_creatures`, followed by `end_of_day` exactly when the frame reaches DAY_LENGTH_FRAMES |

## Left out

- Pygame setup, the window, font, clock and frame pacing (`clock.tick(FPS)`, `pygame.quit`): foreign library calls with no effect on the simulation state.
- The drawing functions `draw_grid`, `draw_foods`, `draw_creatures`, `draw_day_info`, and the colour constants, `CELL_SIZE`, `WINDOW_SIZE` and `FPS`: presentation only.
- Event polling and the `running` flag of `main`: input handling. The model describes one pass of the loop (`Tick`) and what any number of passes do to the counters (`CountersCycle`), not when the loop stops.
- The random number generator: the 1/5 move weights, the choice of edge uniform over the four sides (which counts each corner from two sides), the uniform coordinates, and determinism under a seed. Every draw is an arbitrary in-range input instead.
- How many values the generator consumes: `update_creatures` draws only for roaming creatures, and calls `random_edge_position` only for a creature that eats. The model takes one `StepDraw` per creature. It ignores the whole draw of a waiting creature, and the `relocate` edge draw of a roaming creature that does not eat. `end_of_day` similarly takes a list of edge draws and uses the first |survivors| draws, one per survivor, in order.
- Engine.Simulation.InitFoods: modelled only on runs where the loop finishes, so it requires the drawn cells to contain NUM_FOODS distinct cells. The non-terminating case is stated by `PlacementBeyondCapacity` instead of being run.
- Creature dictionaries are modelled as values in a list. In the source the survivors list holds the same dictionaries as the old list, but the old list is discarded at once, so this sharing cannot be observed.
- Survivors are kept in their original order (`Survivors` is an order-preserving filter), but no lemma states the order. The reset overwrites every field of a survivor, so the next day's population depends only on how many ate (`NextDayPopulation`), and the order cannot be observed.
