# Fallout shelter optimizer, modelled in Dafny

The program walks a player through an n x n shelter grid. `'B'` cells are
bombs and cannot be entered. `'R'` cells hold a RadAway capsule worth one
point. Every other cell is empty. The walk goes from (0, 0) to (n-1, n-1) in
at most `max_steps = 2n-1` moves up, right, down or left. `FalloutOptimizer`
finds the most capsules such a walk can collect. It evaluates a memoised
recurrence `f(x, y, t)` with one of two memo stores: a dense 3-D table
(`solve_with_array`) or a dictionary keyed by `(x, y, t)` (`solve_with_dict`).

The project has four modules:

- `Recurrence` (recurrence.dfy) gives the grid, the bounds check
  `IsValidPosition`, the Manhattan prune `IsReachable`, and the recurrence as
  the pure functions `F` and `Explore`. `Explore(…, i)` is the running
  maximum after the loop has tried the first `i` directions, in the order up,
  right, down, left. The floating-point `-inf` of the source becomes
  `Val.Unreachable`, and `Report` is the final `max(0, result)`. The module
  proves bounds on scores and that adding capsules never lowers the result.
- `Walks` (walks.dfy) is an independent reference semantics. A walk starts at
  a state, stays on in-bounds non-bomb cells, stops the first time it reaches
  the goal, and keeps within the budget. `FIsBestWalk` proves that `F` is the
  best walk score: it is `Unreachable` exactly when there is no walk, and
  otherwise some walk attains it and no walk beats it. On the way the module
  shows that the prune drops only states with no walk. It also shows that
  every walk from the start has exactly 2n-2 moves, so the reported score is
  at most 2n-1.
- `Optimizer` (optimizer.dfy) holds the class `FalloutOptimizer`. Its fields
  are the grid, `n`, `maxSteps`, `directions` and the mutable `callsCount`.
  The recursive methods `ArrayF` and `DictF` are the two inner closures `f`;
  the loop of each over the four directions is its own method
  (`ArrayExplore`, `DictExplore`), proved to compute `Explore`.
  `ArrayF` works on an `array3<Option<Val>>` that starts as all `None`; this
  `None` is the source's `-1` "not computed" marker. `DictF` works on a
  `DictMemo` object whose map field starts empty. Both are proved to return
  `F`. Both keep the invariant that every filled memo entry is `F` of its
  state and belongs to an open, non-goal state that passes the prune. Both
  also guarantee that the memo only grows, and that after a call on a state
  past the base cases that state's entry is filled.
  `SolveWithArray` and `SolveWithDict` reset the counter, build a fresh memo
  and return `Report(F(grid, 0, 0, 0))` together with the call count.
- `Scenarios` (scenarios.dfy) works the recurrence through small 2 x 2 grids and one 3 x 3 grid.

The grid is a `seq<seq<char>>`. As in the source, cells are compared only
against `'B'` and `'R'`, so any other character acts as an empty cell. The start and goal are
not required to be free of bombs: the code handles that case itself, giving
`-inf` and a reported score of 0.

## Model

| member | source | states |
|---|---|---|
| Recurrence.IsValidPosition | Fallout-ada.py:84 | holds iff `0 <= x < n` and `0 <= y < n`; a definition without a contract of its own, used by `F` and by `Walks.Open` |
| Recurrence.IsReachable | Fallout-ada.py:98-100 | holds iff `max_steps - t >= abs(n-1-x) + abs(n-1-y)`; a definition without a contract of its own, whose soundness is `Walks.PruneSound` |
| Recurrence.F | Fallout-ada.py:120-168 | the inner `f` of both solvers (also lines 199-248): a score only at an in-bounds, bomb-free state within the budget that passes the prune; its meaning is carried by `Walks.FIsBestWalk`, `FBounds` and `FMonotone` |
| Recurrence.Explore | Fallout-ada.py:159-164 | the running maximum of the direction loop (also lines 240-244) after the first i directions: an upper bound of every neighbour tried so far |
| Recurrence.CellValue | Fallout-ada.py:157 | a cell is worth 1 exactly when it holds `'R'`, otherwise 0 |
| Recurrence.MaxVal | Fallout-ada.py:160-164 | the running `max`: one of its two arguments, an upper bound of both (Unreachable below every score), and on a tie the value kept so far |
| Recurrence.Report | Fallout-ada.py:183 | the reported `max(0, result)`: never negative, 0 for minus infinity, the score itself when that is non-negative |
| Recurrence.FBounds | Fallout-ada.py:136-167 | every score of `f(x, y, t)` lies in `0 .. max_steps + 1 - t`, because each recursion level adds at most one capsule |
| Recurrence.ExploreBounds | Fallout-ada.py:159-164 | the maximum over the neighbours at `t+1` is Unreachable or a score in `0 .. max_steps - t` |
| Recurrence.ReportBounds | Fallout-ada.py:170-183 | the reported score lies in `0 .. max_steps + 1` and equals `f(0, 0, 0)` when that is a score |
| Recurrence.ExploreIsMax | Fallout-ada.py:159-167 | after i directions the running maximum is Unreachable iff every tried neighbour is, and otherwise one of them attains it |
| Recurrence.FMonotone | Fallout-ada.py:157-167 | on a grid with the same bombs and every cell worth at least as much, `f` is at least as large at every state |
| Recurrence.ExploreMonotone | Fallout-ada.py:159-164 | the same monotonicity for the loop's running maximum over the first i directions |
| Walks.WalkLength | Fallout-ada.py:98-100 | a walk from (x, y) needs at least the Manhattan distance to the goal in moves, and the moves beyond it come in pairs |
| Walks.PruneSound | Fallout-ada.py:148-150 | a state that fails `is_reachable` has no walk to the goal within the budget, so the prune changes no result |
| Walks.WalkBound | Fallout-ada.py:136-167 | for every walk from a state, `f` of that state is a score no smaller than the walk's capsules |
| Walks.BestDirection | Fallout-ada.py:159-164 | the first direction, in the order up, right, down, left, whose neighbour's value is the loop's maximum: it attains the maximum and no earlier direction does |
| Walks.BestWalk | Fallout-ada.py:136-167 | when `f` is a score, a walk from the state that collects exactly that many capsules |
| Walks.FIsBestWalk | Fallout-ada.py:120-168 | `f(x, y, t)` is Unreachable iff no walk exists, and otherwise equals the maximum capsules over all walks |
| Walks.StartWalksAreShortest | Fallout-ada.py:63 | with the budget `2n-1`, every walk from (0, 0) uses exactly `2n-2` moves |
| Walks.ReportAtMostMaxSteps | Fallout-ada.py:183 | on a non-empty grid the reported score is at most `2n-1` |
| Walks.GoalCapsuleCounted | Fallout-ada.py:144-146 | a capsule on the goal is always in the score whenever the goal is reachable |
| Walks.OnlyGoalCapsule | Fallout-ada.py:144-167 | when no cell but the goal can hold a capsule, every reachable state scores exactly the goal's value |
| Optimizer.DictMemo.constructor | Fallout-ada.py:192 | a fresh dictionary memo is empty |
| Optimizer.FalloutOptimizer.constructor | Fallout-ada.py:52-71 | keeps the grid, sets `max_steps = 2n-1`, the direction order up, right, down, left, and a zero call counter |
| Optimizer.FalloutOptimizer.ArrayF | Fallout-ada.py:120-168 | returns `f(x, y, t)`; keeps every filled table cell equal to `f` of its state and limited to states past the base cases; on return the cell of its own state is filled whenever that state is past the base cases; no filled cell is ever cleared; counts at least its own call |
| Optimizer.FalloutOptimizer.ArrayExplore | Fallout-ada.py:160-164 | the dense solver's loop over the four directions returns the running maximum `Explore(…, 4)` of `f` over the neighbours at `t+1`, keeps the table sound, clears no filled cell, and makes at least one counted call per direction |
| Optimizer.FalloutOptimizer.SolveWithArray | Fallout-ada.py:102-183 | resets the counter, fills a fresh table with "not computed", returns `max(0, f(0, 0, 0))` and a call count of at least 1 |
| Optimizer.FalloutOptimizer.DictF | Fallout-ada.py:199-248 | returns `f(x, y, t)`; keeps every dictionary entry equal to `f` of its key and limited to states past the base cases; on return the key of its own state is present whenever that state is past the base cases; no key is ever removed; counts at least its own call |
| Optimizer.FalloutOptimizer.DictExplore | Fallout-ada.py:240-244 | the dictionary solver's loop over the four directions returns the running maximum `Explore(…, 4)`, keeps the dictionary sound, removes no key, and makes at least one counted call per direction |
| Optimizer.FalloutOptimizer.SolveWithDict | Fallout-ada.py:185-263 | resets the counter, starts from an empty dictionary, returns `max(0, f(0, 0, 0))` and a call count of at least 1 |
| Optimizer.CompareBackends | Fallout-ada.py:353-366 | on any square grid the two backends report the same score, a repeated solve reports it again, and it is `max(0, f(0, 0, 0))` |
| Scenarios.CapsuleOnTheWay | Fallout-ada.py:136-167 | on `[".R", ".."]` the optimum is 1 |
| Scenarios.BombForcesDetour | Fallout-ada.py:136-167 | on `[".B", ".."]` the move right from the start is unreachable, the move down scores 0, and the optimum is 0 |
| Scenarios.BlockedGoal | Fallout-ada.py:136-183 | on `[".B", "B."]` the goal is unreachable and the reported score is 0 |
| Scenarios.GoalOnlyCapsule | Fallout-ada.py:144-167 | on `["...", "...", "..R"]` the optimum is 1 |

## Left out

- Timing and memory statistics (`time.time()`, `tracemalloc`, `execution_time`, `memory_peak`) are runtime instrumentation with no effect on the result. The `'method'` label of the statistics and the unused `memory_usage` field are left out too. Only `function_calls` is returned.
- `generate_random_grid` depends on randomness. The grid is a parameter, and only squareness is required.
- `print_grid`, the experiment drivers, the menu and `main` are console I/O and float averages. Only the consistency check of one trial is modelled, as `CompareBackends`.
- Optimizer.FalloutOptimizer.ArrayF: says only that `callsCount` grows by at least one, not the exact number of calls. The exact count depends on the order of exploration and the memo contents, and the source only reports it.
- Optimizer.FalloutOptimizer.DictF: the same weaker counter contract as `ArrayF`.
- Optimizer.FalloutOptimizer.ArrayExplore: says only that each direction adds at least one call to the counter, not the exact number, for the same reason as `ArrayF`.
- Optimizer.FalloutOptimizer.DictExplore: the same weaker counter contract as `ArrayExplore`.
- Optimizer.FalloutOptimizer.SolveWithArray: says that the call count is at least 1, not its exact value.
- Optimizer.FalloutOptimizer.SolveWithDict: says that the call count is at least 1, not its exact value.
- Grids with rows longer than n: the source would ignore the extra columns. The model requires a square grid. Rows shorter than n would make the source fail with an index error.
- Path reconstruction and parent pointers: the source has none. `Walks.BestWalk` is only a ghost witness for the optimality proof.
- Python's recursion-depth limit and the mixing of `int` with the float `-inf` are not modelled. Integers are unbounded, as in Python.
