# Path planning algorithm: search state and route reconstruction

This project models `Path_planning_algorithm`, the base class that every grid
path planner of the repository derives from (a static A* and an incremental
Lifelong A*). The base class holds:

- the field, the start cell and the goal cell;
- the heuristic cache `heuristic_value` and the g-value cache `g_value`.
  Both are read with `dict.setdefault`, and `INFINITY = 1000` is the default
  g-value;
- the mutable-priority queue `priority_queue`, whose entries are written with
  priorities a concrete algorithm computes;
- the reconstruction `_find_shortest_path`. It walks backwards from the goal,
  at each step to the neighbour with the smallest g-value, and returns the
  visited cells reversed;
- the entry point `call`. It builds an instance, runs the concrete search,
  and maps an `INFINITY` answer to "no route".

Modules:

- `Wrappers` (`wrappers.dfy`): the `Option` type.
- `Grid` (`grid.dfy`): cells as coordinate pairs. A field is seen only
  through its two queries, the ordered neighbour list of a cell and the
  heuristic between two cells.
- `Costs` (`costs.dfy`): the `INFINITY` sentinel, the g-value read with its
  default, `dict.setdefault` (`SetDefault`), and the map left after a
  sequence of cells has been read through the default.
- `Reconstruction` (`reconstruction.dfy`): the specification of the
  reconstruction as functions. `MinIndex` is the choice the inner loop makes.
  `WalkFrom` is the backward walk with a step budget. `Reconstruct` is the
  route that results. Lemmas state its endpoints, adjacency and
  minimum-choice properties.
- `PathPlanning` (`path_planning_algorithm.dfy`): the class
  `PathPlanningAlgorithm<K>` with the three caches as `map` fields, and the
  entry point `Call`. `K` is the priority type chosen by the concrete
  algorithm. `ChoosePredecessor` and `FindShortestPath` keep the source's
  `for` and `while` loops. They are proved against `MinIndex`, `WithDefaults`,
  `Reconstruct` and `ScanDefaults`.

The two hooks a concrete algorithm supplies are parameters:

- `_calculate_priority_value` is a `PriorityHook<K>`, a function of the cell
  and the two caches;
- `_compute_shortest_path` is a `SearchHook<K>`, a function from the field,
  start, goal and current state to an answer and a new state.

Model and code differ in two ways:

- The reconstruction loop of the code is unbounded. It also does not
  require a strictly smaller g-value, only one below `INFINITY`. So
  `FindShortestPath` requires `WalkEnds`: the walk from the goal stops,
  either at the start or at a cell without a predecessor. The code neither
  bounds the walk nor signals an error when it finds no predecessor. The
  model keeps the walk unbounded behind `WalkEnds`, but reports a missing
  predecessor as `Stuck` (next item).
- When no neighbour reads below `INFINITY`, the code appends `None` and
  continues from it. The model stops there with `Stuck(cell)`, which `Call`
  reports as `ReconstructionFailed`.

## Model

| member | source | states |
|---|---|---|
| Costs.GValueOfSetDefault | src/path_planning_algorithm.py:60-61 | Reading a g-value with `setdefault(cell, INFINITY)` returns the stored entry, or `INFINITY` for a cell without one. Afterwards every cell, including the one read, has the same g-value as before. This is why the second read at line 79 gives the same value as the first at line 78. |
| Costs.SetDefault | src/path_planning_algorithm.py:57-61 | `setdefault` makes the key present and every old key keep its value. It returns the value now stored, which is the default exactly for an absent key. |
| Costs.WithDefaultsKeys | src/path_planning_algorithm.py:77-79 | After a sequence of g-value reads, the map's keys are the old keys plus exactly the cells read. |
| Costs.WithDefaultsValues | src/path_planning_algorithm.py:77-79 | A sequence of g-value reads changes the g-value of no cell. |
| Grid.CellAt | src/path_planning_algorithm.py:51-52 | The cell for a coordinate pair reports exactly those coordinates. |
| Grid.CoordsInjective | src/path_planning_algorithm.py:42 | Two routes have the same coordinate list exactly when they are the same route, so the list `call` returns loses nothing. |
| Grid.CoordsConcat | src/path_planning_algorithm.py:42 | Converting route pieces separately and joining the results equals converting the joined route. |
| Reconstruction.MinIndex | src/path_planning_algorithm.py:75-80 | The chosen neighbour reads below `INFINITY` and no neighbour reads less. Every earlier neighbour reads strictly more, so ties go to the first. There is no choice exactly when every neighbour reads `INFINITY` or more. |
| Reconstruction.MinValue | src/path_planning_algorithm.py:76-80 | The running minimum is at most `INFINITY` and at most every neighbour's g-value below `INFINITY`. It is either `INFINITY` or the g-value of some neighbour, so it equals the smaller of `INFINITY` and the least neighbour g-value. |
| Reconstruction.MinIndexDefaults | src/path_planning_algorithm.py:77-80 | Two g-value maps that read the same on every cell lead to the same neighbour being chosen. |
| Reconstruction.WalkFrom | src/path_planning_algorithm.py:72-82 | The walk starts at the current cell and visits at most budget + 1 cells. Running out of budget means using all of it. |
| Reconstruction.WalkLast | src/path_planning_algorithm.py:74-82 | A walk ends at the start exactly when its last cell is the start. |
| Reconstruction.WalkStep | src/path_planning_algorithm.py:74-82 | Every cell of a walk but the last is not the start and has a chosen neighbour, and the next cell is that neighbour. |
| Reconstruction.WalkStuck | src/path_planning_algorithm.py:75-81 | A walk that ends without a predecessor ends at a cell that is not the start and for which no neighbour is chosen. |
| Reconstruction.WalkFuelIrrelevant | src/path_planning_algorithm.py:74-82 | Two budgets that both let the walk end give the same walk. |
| Reconstruction.BackwardWalk | src/path_planning_algorithm.py:72-82 | The loop's walk from the goal, when it ends, does not run out of steps. |
| Reconstruction.BackwardWalkIs | src/path_planning_algorithm.py:74-82 | Any budget that lets the walk from the goal end yields the loop's walk. |
| Reconstruction.ExpandedAvoidsStart | src/path_planning_algorithm.py:74-77 | The cells whose neighbours the loop scans are a prefix of the walk. They are exactly the walk's cells that are not the start. |
| Reconstruction.WalkChoice | src/path_planning_algorithm.py:74-82 | At a walk cell other than the start, a chosen neighbour is the walk's next cell. When no neighbour is chosen, the walk ends there without a predecessor. |
| Reconstruction.WalkTurn | src/path_planning_algorithm.py:74-82 | If the cells visited so far are a prefix of the walk, a chosen neighbour extends that prefix by one cell. When no neighbour is chosen, the cells visited so far are the whole walk. |
| Reconstruction.ScanTurn | src/path_planning_algorithm.py:75-80 | The loop's neighbour choice on the partly updated g-values equals the choice on the original ones. Scanning the current cell's neighbours extends the scan by that cell. |
| Reconstruction.ScanDefaultsKeys | src/path_planning_algorithm.py:74-82 | After reconstruction, a cell has a g-value entry exactly when it had one before or is a neighbour of a scanned cell. |
| Reconstruction.ScanDefaultsValues | src/path_planning_algorithm.py:74-82 | Reconstruction keeps every existing g-value entry and changes no cell's g-value. |
| Reconstruction.ReversedTwice | src/path_planning_algorithm.py:83 | Reversing `path[::-1]` again gives back the walk, so the returned route determines the backward walk. |
| Reconstruction.ReconstructSameCell | src/path_planning_algorithm.py:72-83 | When start equals goal, the route is exactly `[goal]`. |
| Reconstruction.ReconstructEndpoints | src/path_planning_algorithm.py:72-83 | A found route is non-empty, begins at the start, ends at the goal, and contains the start nowhere else. |
| Reconstruction.ReconstructStep | src/path_planning_algorithm.py:75-81 | Each route cell but the last is a neighbour of the next cell. It reads below `INFINITY`, no neighbour of that next cell reads less, and it is the first neighbour reading that little. |
| Reconstruction.ReconstructAdjacent | src/path_planning_algorithm.py:75-81 | Consecutive cells of a found route are neighbours. |
| Reconstruction.ReconstructStuck | src/path_planning_algorithm.py:75-81 | Reconstruction gets stuck only at a cell other than the start, none of whose neighbours reads below `INFINITY`. |
| PathPlanning.EmptyState | src/path_planning_algorithm.py:53-55 | Before any search, every cell has g-value `INFINITY`, and the heuristic cache and the queue hold no cell. |
| PathPlanning.PathPlanningAlgorithm.constructor | src/path_planning_algorithm.py:44-55 | Stores the field and the priority hook. Sets start and goal to the cells at the given coordinates. Leaves all three maps empty, so the heuristic cache is consistent. |
| PathPlanning.PathPlanningAlgorithm.GetHeuristicValue | src/path_planning_algorithm.py:57-58 | A cached value is returned and the cache is unchanged. Otherwise the field's heuristic against the goal is returned and cached for that cell. A consistent cache stays consistent, and the value is then always the field's heuristic. |
| PathPlanning.PathPlanningAlgorithm.GetGValue | src/path_planning_algorithm.py:60-61 | A present cell's entry is returned and the map is unchanged. An absent cell yields `INFINITY` and is mapped to `INFINITY`. No other entry changes. |
| PathPlanning.PathPlanningAlgorithm.SetPriorityValue | src/path_planning_algorithm.py:63-64 | The queue gains the cell if absent, and the cell's priority becomes the hook's value. Every other cell keeps its presence and priority. |
| PathPlanning.PathPlanningAlgorithm.ComputeShortestPath | src/path_planning_algorithm.py:38 | Returns the search hook's answer and leaves the state the hook produced. |
| PathPlanning.PathPlanningAlgorithm.ChoosePredecessor | src/path_planning_algorithm.py:75-80 | The inner loop yields the neighbour `MinIndex` chooses, or none. The g-value map becomes the old map with every scanned neighbour read through the default. |
| PathPlanning.PathPlanningAlgorithm.FindShortestPath | src/path_planning_algorithm.py:67-83 | The loop returns `Reconstruct` of the g-values it started from. The g-value map ends as `ScanDefaults` of those values over the cells expanded. Only `g_value` is modified. |
| PathPlanning.Call | src/path_planning_algorithm.py:21-42 | "No route" is returned exactly when the search answers `INFINITY`. Otherwise the answer comes back unchanged with the coordinates of the reconstructed route. That route begins at the start coordinates and ends at the goal coordinates. |

## Left out

- `heapdict` internals are left out. The queue is a `map` with insert and
  update semantics, because the base class never pops from it.
- `Field` and `Cell` (`field.py`, `cell.py`) are not part of this model.
  Left out with them are the grid-string parsing in the field constructor,
  `get_cell` bounds checks, how neighbours are computed, the heuristic
  formula, and the `edges_dict` argument that only the field consumes. A
  field is given by its neighbour and heuristic functions, and a cell is its
  coordinate pair.
- The neighbours of a cell are a set in the source and are iterated in
  Python's set order. Here they are a given sequence, and ties go to the
  first neighbour in that sequence.
- `_compute_shortest_path` and `_calculate_priority_value` are defined only
  in the subclasses, which are not part of this model. They are abstract
  parameters, so no property of A* or Lifelong A* is stated.
- PathPlanning.PathPlanningAlgorithm.SetPriorityValue: the priority hook is
  a pure function of the cell and the two caches. The caching side effects
  the subclasses' priority computations may have on those caches are not
  modelled.
- Reconstruction.Reconstruct and
  PathPlanning.PathPlanningAlgorithm.FindShortestPath: a g-value map whose
  backward walk never ends is excluded by the `WalkEnds` precondition. On
  such a map the source loops forever.
- PathPlanning.Call: when reconstruction finds no predecessor, the source
  appends `None` and continues with it, and what happens next depends on the
  field. The model stops and returns `ReconstructionFailed` with the cell
  reached.
- The commented-out debugging print in `_find_shortest_path` is left out.
