# Sparse Game of Life engine, modelled in Dafny

The repository implements Conway's Game of Life on an unbounded plane as one
Python class, `GOL`, plus a small driver script. The engine keeps two sparse
grids, each a nested dictionary from column `x` to row `y` to the value `1`:

- `oldcells` is the committed generation. Queries (`get`) and neighbour counts
  read only this grid.
- `newcells` is the pending generation. Births and kills write only this grid,
  through `_setCell`, which also drops a column once it becomes empty.

One `tick` visits every committed live cell. It kills the cell in the pending
grid when it has fewer than two or more than three live neighbours, and it
births every dead neighbour that has exactly three. Then `applyChanges` commits
a deep copy of the pending grid. The tick never resets the pending grid first.

The model has five modules:

- `Life` states the abstract world over finite sets of integer pairs:
  - the neighbour count, in the loops' own visiting order;
  - the kill and birth sets of one tick;
  - the grid a tick commits from a committed set `C` and a pending set `P`;
  - the B3/S23 rule.
- `SparseGrid` is the nested map with its well-formedness invariant: every
  stored value is 1 and there are no empty columns. It also holds the
  abstraction to the set of live cells, and `_setCell`.
- `Engine` holds the two grids, the public operations, and the loop-based
  neighbour count, dead-neighbour scan and tick. Each is proved against `Life`.
- `Render` is the bounding box of the frame, plus the code as written (see
  Findings).
- `Patterns` holds the birth sequences of the spawn helpers, the script's
  start-up sequence, and concrete generations: block, blinker and glider.

The tick is stated for arbitrary `(C, P)`. The tick commits
`(P - Kills) + Births`, where the kill and birth sets are computed from `C` only.
B3/S23 is a corollary when `P == C`. The script's own start-up breaks that
condition. Its two blocks are birthed but never committed, so the first tick
would carry them through unexamined. That first tick is reached only if the
first frame renders. The script's Python 3 interpreter cannot render it, as
Findings explains. Python 2 can, because there `keys()` returns a list. The
intended box `Render.BoundingBox` can too.

## Model

| member | source | states |
|---|---|---|
| Engine.NewGame | gol.py:19-21 | A new engine has both grids empty and well formed. It starts synchronised, with no live cell. |
| SparseGrid.Lookup | gol.py:23-28 | On a well-formed grid, the stored state is 1 exactly for the live cells and 0 for every other coordinate. |
| Engine.Get | gol.py:23-28 | A query returns 0 or 1, and 1 exactly when (x, y) is live in the committed grid. The pending grid plays no part. |
| SparseGrid.SetCell | gol.py:36-47 | State 0 removes (x, y) from the live cells, or changes nothing if it is absent. Any other state adds it. Every other coordinate keeps its stored value. Writing 0 or 1 keeps the grid free of stored zeros and empty columns. |
| Engine.Birth | gol.py:30-31 | A birth adds (x, y) to the pending cells, leaves the committed grid as it was, and keeps both grids well formed. |
| Engine.Kill | gol.py:33-34 | A kill removes (x, y) from the pending cells. It is a no-op when the cell is not pending. The committed grid is untouched. |
| Engine.BirthIdempotent | gol.py:30-31 | Birthing the same cell twice gives the same engine as birthing it once. |
| Engine.KillIdempotent | gol.py:33-42 | Killing the same cell twice gives the same engine as killing it once. |
| Engine.ApplyEdits | gol.py:30-47 | Any sequence of births and kills leaves the committed grid unchanged and keeps both grids well formed. |
| Engine.ApplyChanges | gol.py:83-84 | After a commit the two grids are equal and well formed. A query answers 1 exactly for the cells that were pending. |
| Engine.CommitIsolation | gol.py:13-14 | After a commit, no later birth or kill changes any query answer. |
| Life.RingIsAdjacency | gol.py:50-53 | The two nested loops over (1, 0, -1), skipping (0, 0), visit exactly the Moore neighbours of the cell. |
| Life.NeighborsIsCardinality | gol.py:64-72 | The summed neighbour count equals the number of live Moore neighbours, excluding the cell itself. |
| Engine.CountNeighbors | gol.py:64-72 | The loop's total equals the abstract neighbour count of the committed cells, and lies between 0 and 8. |
| Life.DeadBirths | gol.py:49-62 | The cells the scan around v births are dead in the committed grid and lie among the eight neighbours of v. |
| Engine.BirthIfThree | gol.py:55-62 | One offset of the scan adds the neighbour to the pending cells exactly when it is dead and has three live neighbours. |
| Engine.CheckDeadNeighbors | gol.py:49-62 | The scan adds exactly the dead neighbours with three live neighbours to the pending cells. The committed grid is untouched. |
| Life.VisitStep | gol.py:76-80 | Visiting one more committed cell kills it if its count is outside 2..3, then births its qualifying dead neighbours. This extends the kill and birth sets by that cell. |
| Engine.Tick | gol.py:74-81 | For every visiting order of the dictionaries, the tick commits the pending cells minus the dying committed cells, plus the births. It leaves the engine synchronised. When it starts synchronised, a cell is alive afterwards exactly when B3/S23 holds for it. |
| Life.TickOrderIndependent | gol.py:74-80 | The kill set and the birth set are disjoint, so killing before or after birthing gives the same grid. |
| Life.BirthsAreNearby | gol.py:49-62 | Every birth is dead in the committed grid, has exactly three live neighbours, and is a Moore neighbour of a committed live cell. |
| Life.TickIsLife | gol.py:74-84 | From a synchronised engine, a cell is alive after the tick exactly when it satisfies B3/S23 on the committed cells. |
| Life.Locality | gol.py:74-81 | A cell alive after a tick was already pending, or is within Chebyshev distance 1 of a committed live cell. |
| Life.StalePendingCarried | gol.py:74-81 | Cells that are only pending are never examined. They survive the tick on top of the next generation of the committed cells. |
| Life.EmptyStaysEmpty | gol.py:74-81 | The empty world stays empty. |
| Render.MinWith | gol.py:96 | The result is no larger than the start value or any key, and it is one of them. |
| Render.MaxWith | gol.py:97 | The result is no smaller than the start value or any key, and it is one of them. |
| Render.BoundingBox | gol.py:87-97 | The box covers the origin and every committed live cell. Each bound is 0 or is reached by a stored column or live cell, so the box is the smallest one containing both. An empty grid gives exactly (0, 0, 0, 0). |
| Render.BoundingBoxAsWritten | gol.py:96-97 | Under Python 3, the computation as written produces a box only for the empty grid, and that box is the origin. |
| Render.AsWrittenFailsOnLiveGrid | gol.py:96-97 | Every committed grid with a live cell makes the code as written raise a TypeError. |
| Render.AsWrittenCounterexample | gol.py:96 | The grid holding only (0, 0) is well formed and makes the code as written raise a TypeError. |
| Patterns.BirthEach | gol.py:110-114 | A run of births adds exactly the listed cells to the pending grid and leaves the committed grid as it was. |
| Patterns.SpawnGlider | gol.py:109-115 | Placing a glider commits everything pending together with its five cells. |
| Patterns.SpawnLWSS | gol.py:117-126 | Placing a ship adds its nine cells to the pending grid only. Nothing is committed. |
| Patterns.SpawnBlock | gol.py:128-132 | Placing a block adds its four cells to the pending grid only. Nothing is committed. |
| Patterns.BlockStillLife | gol.py:128-132 | Once committed, the block is unchanged by a tick. |
| Patterns.GliderGlides | gol.py:109-115 | The glider placed by the spawn helper returns to its shape, moved by (+1, +1), after four ticks. |
| Patterns.BlinkerOscillates | gol.py:74-84 | A synchronised tick turns a row of three into a column of three and back. |
| Patterns.DriverSetup | gol.py:134-137 | After the start-up sequence, only the ship and the glider are committed. The two blocks are pending only. |
| Patterns.DriverFirstFrameFails | gol.py:134-140 | Under Python 3, the first frame the script renders raises a TypeError, because the ship and glider are already committed. The script therefore stops before its first tick. |
| Patterns.DriverFirstTick | gol.py:134-141 | Once the first frame has rendered (under Python 2, or with the intended box), the tick that follows commits the next generation of the ship and glider together with the two untouched blocks. |
| Patterns.BlocksCarried | gol.py:134-137 | Blocks left pending to the right of the committed ship and glider pass through a tick unchanged. |

## Left out

- The driver loop (`while True`, `print`, `time.sleep`) at gol.py:139-142 is left out because it is I/O and never terminates. Only its start-up calls are modelled, as `Patterns.DriverSetup`.
- The module-level `game` instance is a parameter of `Patterns.DriverSetup`: any valid engine with empty grids.
- The string assembly of the frame at gol.py:99-105 is left out. It is presentation, built from the bounding box and `get`.
- `copy.deepcopy` is modelled as value assignment. The model's grids are immutable values, so the committed copy shares nothing with the pending grid.
- The model leaves dictionary iteration order open. `SparseGrid.Pick` chooses an arbitrary element, so the contracts of `Engine.Tick` and `Render.BoundingBox` hold for every order. That includes the insertion order that Python 3.7 and later guarantee and that `copy.deepcopy` keeps. It also covers the unspecified order of earlier versions.
- The two nested loops over `(1, 0, -1)` with `(0, 0)` skipped are one loop over the constant `Life.Offsets`, which lists the eight offsets in the same visiting order.
- Python's integers are unbounded, like Dafny's `int`, so no wrap-around is modelled.
- `_setCell` stores any non-zero state. The public callers only pass 0 and 1, and well-formedness is proved for those two.
- The performance remarks in the comments at gol.py:11 and 16-17 are left out.

## Findings

| source | as written | input that shows it | evidently intended | confidence | as-written member | corrected member |
|---|---|---|---|---|---|---|
| gol.py:96-97 | The row minimum and maximum are taken over a list concatenated with a column's `dict_keys` view. Under the Python 3 interpreter the shebang names (gol.py:1), this raises TypeError for the first column visited. The driver therefore stops at its first `print` (gol.py:140), before any tick, since the ship and glider are committed by then. | a committed grid holding the single live cell (0, 0) | the lowest and highest row over the start value and the column's keys, so that the frame covers every live cell and the origin | high, not executed | Render.BoundingBoxAsWritten, Render.AsWrittenFailsOnLiveGrid, Render.AsWrittenCounterexample, Patterns.DriverFirstFrameFails | Render.BoundingBox |
