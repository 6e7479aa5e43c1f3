# A* grid path planner — Dafny model

`path_planning.cpp` looks for a shortest route between the start marker
`S` and the goal marker `G` on a fixed 10 × 7 character grid, where `|`
marks an obstacle. It runs A* with a Manhattan-distance heuristic and
4-directional unit moves. It then overlays the route on the grid with `.`
and re-stamps `S` and `G` on the endpoints.

The model follows the program's structure:

- `grid.dfy` (module `GridWorld`) holds the grid constants. These are
  `WIDTH`/`HEIGHT`, the move tables `dx`/`dy`, and the marker characters.
  The module also holds the heuristic `findHeuristic` and the marker lookup
  `findPosition`. `findPosition` is a nested scanning loop with an early
  return, written as a method with loops.
- `frontier.dfy` (module `Frontier`) holds `Node` and its `operator>`. The
  min-priority queue is a multiset, and `top()`+`pop()` take out some node
  of least `cost + heuristic`. Ties are left open.
- `astar.dfy` (module `AStar`) holds `findPath`, split along its own loops:
  - `Initialise` sets up the cost table and the frontier;
  - `Search` is the frontier loop, and `Visit` is one pass of it;
  - `Expand` is the `for` over the four moves;
  - `Relax` is the body of one pass;
  - `MarkPath` is the backtrace loop;
  - `Backtrace` is the whole goal branch;
  - `FindPath` puts the search and the backtrace together.

  The grid is an `array2<char>` that `FindPath` changes in place. The cost
  table is an `array2<int>` that starts at the sentinel `1e9` (`Unreached`).
  The predecessor table is a `map<int, Pos>` keyed by `y * WIDTH + x`, as in
  the program.
- `walks.dfy` (module `Walks`) defines walks on the grid. A walk is a
  4-connected sequence of cells whose every cell after the first is free.
  The search is judged against walks: the found path is a walk no longer
  than any other, and a failed search means no walk exists.
- `planner.dfy` (module `Planner`) holds `main` without its printout. It
  also holds the initial layout as a concrete instance, on which the search
  provably succeeds.

The search invariant is stated over a value snapshot of the search state,
`State(costs, frontier, prev)`. Its parts:

- Costs lie between 0 and the sentinel, and the start costs 0.
- Only free cells, and the start, are ever reached.
- Frontier nodes carry true heuristics and costs no lower than the recorded
  ones.
- Exactly the reached cells other than the start have a predecessor. It is
  a 4-neighbour with a strictly lower cost.
- Every reached cell is either *open* or *closed*. Open means a node at its
  current cost is queued. Closed means every free neighbour costs at most
  one more. The goal, when reached, is always open.

From this invariant, a minimal pop and the heuristic's consistency, the
model proves several results:

- the goal is popped at its shortest distance;
- the reconstructed path is a shortest walk;
- an exhausted frontier means the goal is unreachable;
- the popped priorities never decrease.

## Model

| member | source | states |
|---|---|---|
| GridWorld.FindPosition | path_planning.cpp:50-59 | The result is (-1, -1) exactly when no cell holds `c`; otherwise it is an in-bounds cell holding `c` and no cell earlier in row-major order holds `c` |
| GridWorld.FindHeuristic | path_planning.cpp:62-64 | The heuristic is non-negative, zero exactly at the goal, and at least the difference along each axis |
| GridWorld.HeuristicStep | path_planning.cpp:62-64 | Consistency: one 4-neighbour move changes the heuristic by exactly one |
| GridWorld.StepIsAdjacent | path_planning.cpp:23-24 | Each of the four `dx`/`dy` moves reaches a 4-neighbour and never the cell itself |
| GridWorld.DirectionTo | path_planning.cpp:23-24 | Every 4-neighbour is reached by one of the four moves |
| GridWorld.KeyInjective | path_planning.cpp:108 | The key `y * WIDTH + x` of an in-bounds cell lies in [0, 70), and distinct cells have distinct keys |
| GridWorld.CellOfKey | path_planning.cpp:87 | Every key in range is the key of exactly the in-bounds cell it names |
| Walks.DistanceAtMostWalk | path_planning.cpp:62-64 | Admissibility: from any cell of a walk, the heuristic to the walk's end is at most the number of moves left |
| Walks.ShortWalk | path_planning.cpp:70 | If the goal is reachable, it is reachable by a walk of at most 70 cells, well below the `1e9` sentinel |
| Walks.Pigeonhole | path_planning.cpp:20 | A sequence of more than WIDTH × HEIGHT in-bounds cells repeats a cell |
| Walks.CutLoop | path_planning.cpp:20 | Cutting the loop between two visits of the same cell leaves a strictly shorter walk between the same ends |
| Frontier.GreaterIsStrictWeakOrder | path_planning.cpp:44-46 | `operator>` compares `cost + heuristic`: it is irreflexive and transitive, and two nodes are incomparable exactly when their priorities tie |
| Frontier.MinimumExists | path_planning.cpp:77 | A non-empty frontier has a node that no other node is smaller than |
| Frontier.PopMin | path_planning.cpp:77-78 | `top()` then `pop()`: returns a node of the frontier whose priority is at most that of every node in it, and the frontier minus one copy of that node |
| Frontier.PopAscending | path_planning.cpp:76-78 | When no queued node lies below what was popped before, the popped priorities stay non-decreasing, and the first pop is the start node |
| AStar.InitialState | path_planning.cpp:70-74 | Every cost at the sentinel except the start at 0, the start node queued and no predecessors: the search invariant holds |
| AStar.RelaxedIsRelaxation | path_planning.cpp:104-109 | A relaxation either changes nothing, or lowers the cost of a free 4-neighbour to `cost + 1` from a strictly higher value, queues that node with its heuristic, records the popped cell as predecessor, and leaves every other cost unchanged |
| AStar.RelaxKeepsCosts | path_planning.cpp:104-106 | After a relaxation, costs stay between 0 and the sentinel, the start stays at 0, only free cells are reached, and no cost goes up |
| AStar.RelaxKeepsFrontier | path_planning.cpp:107 | Every queued node stays in bounds, not below its cell's recorded cost, with its true heuristic |
| AStar.RelaxKeepsPred | path_planning.cpp:108 | Exactly the reached cells other than the start keep a predecessor, each an in-bounds 4-neighbour with a strictly lower cost |
| AStar.RelaxKeepsSettled | path_planning.cpp:104-109 | Every cell that was open or closed stays so, and the relaxed cell becomes open |
| AStar.RelaxKeepsExpanding | path_planning.cpp:104-109 | A relaxation keeps the whole neighbour-loop invariant and raises no cost |
| AStar.RelaxKeepsOrder | path_planning.cpp:107 | A newly queued node has priority at least that of the popped node, and the termination measure does not grow |
| AStar.RelaxPreserves | path_planning.cpp:97-109 | One pass of the neighbour loop keeps the invariant, raises no cost, and leaves a free neighbour at most one move costlier than the popped node; since the invariant includes that only free cells are reached, out-of-bounds and obstacle cells never get a cost, node or predecessor |
| AStar.Relax | path_planning.cpp:97-109 | The method's new cost table, frontier and predecessor map are exactly the relaxation of the old ones in direction `i` |
| AStar.RelaxUpTo | path_planning.cpp:96-111 | The relaxations of the first i moves, applied in order, keep a cost for each of the 70 cells |
| AStar.RelaxUpToPreserves | path_planning.cpp:96-111 | Relaxing the first i moves keeps the neighbour-loop invariant and brings those free neighbours within one move of the popped node. No cost goes up, every new node has priority at least the popped node's, and the measure does not grow |
| AStar.RelaxUpToIsLocal | path_planning.cpp:96-111 | Relaxing the moves changes nothing away from the popped node's four neighbours: every other cell keeps its cost, its predecessor entry and its queued nodes |
| AStar.Expand | path_planning.cpp:96-111 | The new cost table, frontier and predecessor map are exactly the four relaxations applied in order to the old ones. The search invariant is back, no cost went up, and every new node has priority at least that of the popped node |
| AStar.PopKeepsInvariant | path_planning.cpp:77-78 | Popping a non-goal node leaves the invariant, except for the popped cell, and lowers the measure by one |
| AStar.ExpandedIsSettled | path_planning.cpp:96-111 | Once all four neighbours are within one move of the popped node, that cell is closed and the full invariant holds |
| AStar.ProgressAbove | path_planning.cpp:76-78 | After expanding a minimal node, no queued node has a smaller priority |
| AStar.ExpansionResumes | path_planning.cpp:76-111 | After a non-goal pop and its expansion, the popped priorities are still in order and no queued node lies below the last of them |
| AStar.OpenAlongWalk | path_planning.cpp:76-93 | Along any walk to the goal, some cell at or beyond a well-costed one is open with a cost no more than its index |
| AStar.GoalPoppedOptimal | path_planning.cpp:81 | When a minimal pop yields the goal, its cost is at most the length of every walk from the start to the goal |
| AStar.ExhaustedMeansUnreachable | path_planning.cpp:112-113 | When the frontier is empty, no walk leads from the start to the goal |
| AStar.Initialise | path_planning.cpp:67-74 | A fresh cost table with every cell at the sentinel except the start at 0, the start node queued with its heuristic, an empty predecessor map, and the search invariant holding |
| AStar.Visit | path_planning.cpp:76-111 | One pass pops a node of least priority, leaving the rest of the frontier, and appends its priority to the pops, which stay in order from the start node. At the goal nothing else changes, the tables stay valid, and the goal's cost is at most every walk's length and equals the last pop. Otherwise the new cost table, frontier and predecessor map are exactly the four relaxations of the rest; no cost went up, the invariant and the pop order hold again, and the measure went down |
| AStar.Search | path_planning.cpp:67-113 | On exhaustion no walk joins start and goal. When the goal is popped, its cost is below the sentinel, at least the goal's recorded cost and at most the number of moves of every walk. The popped priorities are in order, the first is the start's distance to the goal, and on success the last is the goal's cost |
| AStar.TablesTraceable | path_planning.cpp:85-87 | Every reached cell other than the start has a predecessor entry, so the backtrace never reads a missing key |
| AStar.ExtendTrace | path_planning.cpp:87 | Stepping back from a non-start cell finds its predecessor in the table, at strictly lower cost, and extends the traced chain |
| AStar.TraceComplete | path_planning.cpp:85-88 | A trace that reaches the start is a walk from start to goal, no longer than the goal's cost |
| AStar.MarkPath | path_planning.cpp:85-88 | The backtrace terminates with a walk from start to goal; it writes `.` on exactly the path's cells other than the start and leaves every other cell unchanged |
| AStar.Backtrace | path_planning.cpp:81-92 | After marking, the goal holds `G` and a distinct start holds `S`; every other cell holds `.` if on the path and its old content otherwise; no obstacle off the start is overwritten |
| AStar.FindPath | path_planning.cpp:67-114 | On failure the grid is unchanged and no walk exists. On success the marked path is a shortest walk, the endpoints hold `S`/`G`, other cells are `.` exactly on the path, and obstacles survive. The popped priorities are non-decreasing. The first is the start's heuristic, and on success the last equals the number of moves along the path |
| Planner.InitialStart | path_planning.cpp:27-35 | The initial layout holds its only `S` at (1, 0) |
| Planner.InitialGoal | path_planning.cpp:27-35 | The initial layout holds its only `G` at (8, 3) |
| Planner.InitialRoute | path_planning.cpp:27-35 | A 17-cell walk leads from (1, 0) to (8, 3) in the initial layout |
| Planner.Plan | path_planning.cpp:116-120 | The start and goal are the first `S` and `G` in row-major order, and the search succeeds exactly when a walk joins them; the result is then a shortest walk marked on the grid |
| Planner.RunInitial | path_planning.cpp:116-120 | On the shipped layout the search succeeds, the path is a walk from (1, 0) to (8, 3) of at most 17 cells, and `S`/`G` are in place |

## Left out

- Printing. This covers the grid dump in `main` (path_planning.cpp:122-125)
  and the "No path found!" message (path_planning.cpp:113). Failure is the
  boolean result of `FindPath`.
- The global `grid` variable (path_planning.cpp:27-35). It is a parameter
  of `FindPath` and `Plan`. The initial layout appears only as
  `Planner.InitialLayout`, the concrete instance.
- The internals of `std::priority_queue` and `std::unordered_map`. The
  frontier is a multiset, and the pop chooses any minimal node, as a binary
  heap may. The predecessor table is a Dafny `map` with the same integer
  keys.
- The default insertion of `{0, 0}` that `operator[]` performs on a missing
  key (path_planning.cpp:87). It is not modelled, because `ExtendTrace`
  proves the key is always present.
- A missing marker. `findPosition` then returns (-1, -1).
  - Without an `S`, `findPath` writes `costs[-1][-1]` (path_planning.cpp:74).
    This is undefined behaviour.
  - Without a `G`, the run is well defined. Lines 73-74 use only the valid
    start, and every queued node is in bounds. The goal test at
    path_planning.cpp:81 therefore never fires, the frontier runs dry, and
    the program prints "No path found!" (path_planning.cpp:113) with the
    grid unchanged.

  `FindPath` requires an in-bounds start and goal, and `Plan` requires both
  markers. For the goal, this is a modelling choice: it excludes an input
  the program handles as a plain failed search.
- Nothing about stale frontier entries: the program expands every popped
  node, stale or not, and so does the model.
- Machine integers. The model's integers are unbounded. No arithmetic in
  the program can overflow `int`:
  - costs stay at or below the sentinel `1e9`, which is less than 2^31;
  - keys stay below 70;
  - coordinates stay within ±1 of the grid.
- The conversion of `1e9` from `double` to `int`. It is exact, so
  `Unreached` is simply the integer 1000000000.
- `FindPath`: the guarantee that no obstacle is overwritten excludes the
  start cell. The program stamps `S` on the start cell whatever that cell
  held. In `main` it is always the cell that held `S`.
- `FindPath`: the ghost results `path` and `pops` are specification
  artefacts. The program computes neither.
