# Labirin maze engine in Dafny

A model of the maze engine in `Labirin/script.js`, a browser page that carves a
random perfect maze and solves it with two depth-first searches, one recursive
and one iterative.

- **Grid.** The engine's `grid[y][x]` of `Cell` objects is stored as three
  `array2`s indexed `[y, x]`: the wall records (`Walls`, four flags with `true`
  meaning the wall stands), the `visited` flags and the `inPath` flags. A `Cell`
  is identified by its coordinates (`Pos`). The source compares cells by
  identity, and for grid cells that is equality of coordinates.
- **Carving.** `Carving.Carve` and `Carving.CarveLoop` are the randomised
  depth-first carving of `buatLabirin`, over an explicit stack. It is proved
  that:
  - the loop terminates, by the measure (unmarked cells, stack height);
  - the stack always holds visited cells, each carved from the one below it;
  - on exit every cell is visited and the walls form a perfect maze:
    - open walls agree across neighbouring cells;
    - the outer rim is closed;
    - exactly `width * height - 1` passages are open;
    - every cell is reachable from the random start cell (`Grid.Perfect`).
- **Session.** `Labirin.Session` is the page's global state: the grid, the fixed
  start and end cells, the path array that the recursive solver shares between
  its calls (`trail`), and the results record.
- **Solvers.** `DfsRecursive` (with its neighbour loop `TryNeighbors`) and
  `DfsIterative` (with its push loop `PushNeighbors`) are proved against their
  specifications:
  - a result is a walk through open walls, with no repeated cell, from the start
    cell to the end cell;
  - the recursive solver restores the shared path when it fails;
  - one push pass of the iterative solver keeps the old stack below and pushes exactly
    the unmarked open neighbours of the popped cell, in the order top, right, bottom,
    left, each with the popped path extended by it, and never a cell twice;
  - the reported count is the number of visited cells.
- **Both solvers always succeed.** A failed search would leave a set of visited
  cells that holds the start, not the end, and has no open step leading out of
  it. Such a set cannot exist in a perfect maze. So `Solve` (the source's
  `selesaikan`) always stores a result whose `pathLength` is the length of a
  real start-to-end walk, at most `width * height` long. Its `visited` value lies
  between 1 and `width * height`.

Randomness is a parameter `rng: nat -> nat`:
- draw 0 gives the start column;
- draw 1 gives the start row;
- draw `k + 2` picks among the unvisited neighbours at the `k`-th carving step.

Each draw is reduced modulo its range; this stands for `Math.floor(Math.random() * n)`.

When the end cannot be reached, `dfsRekursif` returns `null` (line 326), and
`selesaikan` would then read `result.path` of `null` (line 261) and throw;
`dfsIteratif` returns an empty path (line 368). The model follows the code:
`DfsRecursive` returns `None` and `DfsIterative` an empty path, and
`SolveRecursive` and `SolveIterative` prove that neither case arises on a maze
that `buatLabirin` built.

## Model

| member | source | states |
|---|---|---|
| Geometry.Below | Labirin/script.js:121-122 | a random draw picks an index strictly below the number of choices |
| Geometry.RemoveWallOpensFacingPair | Labirin/script.js:170-187 | for orthogonal neighbours, removeWall clears exactly the side of `current` facing `next` and the side of `next` facing `current`; every other flag of both cells and every other cell is unchanged |
| Grid.RemoveWall | Labirin/script.js:170-187 | every wall record afterwards is the old one with the side chosen by the dx/dy tests (dx = 1, dx = -1, dy = 1, dy = -1, else nothing) opened on `current` and the opposite side opened on `next` |
| Geometry.Gather | Labirin/script.js:158-167 | the neighbours across the chosen sides, each adjacent, in the strict order top, right, bottom, left, and exactly those |
| Grid.UnvisitedNeighbors | Labirin/script.js:158-168 | a cell is listed iff it is an in-bounds orthogonal neighbour whose visited flag is clear (walls are ignored); listed in the order top, right, bottom, left |
| Grid.ValidNeighbors | Labirin/script.js:371-381 | a cell is listed iff it is an in-bounds neighbour and the wall of the given cell facing it is down; listed in the order top, right, bottom, left |
| Grid.Mark | Labirin/script.js:136 | after setting one visited flag the flags record exactly the previously marked cells plus that one |
| Grid.ResetFlags | Labirin/script.js:143-149 | afterwards every visited and inPath flag is false; walls are outside the frame, and the final state does not depend on the initial one, so a second run changes nothing (the same loop is at lines 246-251 and 545-553) |
| Grid.CountVisited | Labirin/script.js:383-391 | the row-by-row scan returns the number of cells whose visited flag is set, which is the size of the set of marked cells (`Marked`) |
| Grid.MarkedCount | Labirin/script.js:383-391 | the visited count equals the number of cells whose flag is set, independently of the order of the scan |
| Grid.RecordsCount | Labirin/script.js:383-391 | when the flags record a set of grid cells, the marked cells are exactly that set and the visited count is its size |
| Grid.VisitedCountBounds | Labirin/script.js:383-391 | once some cell is visited, the count is between 1 and width * height |
| Grid.DistinctPathBound | Labirin/script.js:278-282 | a path through grid cells without repeats, such as the one whose length is stored as pathLength, has at most width * height entries |
| Grid.ClosedRegionReaches | Labirin/script.js:259-267 | in a symmetric maze where every cell is reachable from one root, a set of cells holding the start with no open step leading out of it holds the end |
| Carving.Carve | Labirin/script.js:120-141 | from an all-walls grid with cleared flags: every cell ends visited and the walls form a perfect maze (symmetric, closed rim, width * height - 1 open passages, all cells reachable from the start cell) |
| Carving.CarveLoop | Labirin/script.js:128-141 | the while loop terminates (measure: unmarked cells, then stack height) and keeps its invariant, with every cell seen once the stack is empty |
| Carving.StackOpen | Labirin/script.js:129-141 | at every iteration each stacked cell is visited, and consecutive stack entries are neighbours with the wall between them down on both sides |
| Carving.PushTrace | Labirin/script.js:133-137 | a push marks one previously unmarked cell, opens one passage and extends the stack, keeping the loop invariant |
| Carving.CarveTowards | Labirin/script.js:135-136 | after removeWall(current, next) and marking next, the wall records follow `CarvedView` of the old view and the visited flags record the seen cells plus `next` |
| Carving.CarveStep | Labirin/script.js:135 | one removeWall adds exactly the passage between the two cells to the passages the walls record, and the rim stays closed |
| Carving.PushPassages | Labirin/script.js:133-137 | carving to an unseen neighbour adds exactly one passage, keeping passages = seen cells - 1 |
| Carving.Exhausted | Labirin/script.js:131-133 | when no unvisited neighbour is listed, every in-bounds neighbour is visited |
| Carving.PopState | Labirin/script.js:138-139 | popping a cell all of whose neighbours are seen keeps the loop invariant |
| Carving.CarveFinish | Labirin/script.js:129-141 | with the stack empty every cell is seen, walls agree across neighbours, the rim is closed, width * height - 1 passages are open and the routes reach every cell |
| Carving.AllRecorded | Labirin/script.js:129-141 | once every cell is seen, every visited flag is set |
| Labirin.Delay | Labirin/script.js:296 | the pause is Math.max(1, 100 - speed): at least both arguments and equal to one of them |
| Labirin.DelayMonotone | Labirin/script.js:338 | a higher animation speed never gives a longer pause |
| Labirin.WalkExtend | Labirin/script.js:318-320 | a repeat-free open walk extended by an open step to an unmarked cell is still a repeat-free open walk |
| Labirin.WalkPrefix | Labirin/script.js:325 | dropping the last cell of a walk (the pop) leaves a walk |
| Labirin.ContinuesAfter | Labirin/script.js:320-321 | a result returned through a child call starts with the path as given, then the current cell, and ends at the end cell |
| Labirin.Session.Build | Labirin/script.js:110-149 | fresh arrays of the requested size whose walls form a perfect maze, with every visited and inPath flag cleared |
| Labirin.Session.constructor | Labirin/script.js:30-50 | the first maze is valid and held in fresh arrays, so the session's methods may update them; every flag is cleared and no result is stored |
| Labirin.Session.Generate | Labirin/script.js:110-156 | the new grid has the requested size and is a perfect maze with every flag cleared, start at (0, 0) and end at (width - 1, height - 1) |
| Labirin.Session.ClearPath | Labirin/script.js:545-553 | every visited and inPath flag is cleared; walls, start, end and results are untouched |
| Labirin.Session.ResetResults | Labirin/script.js:556-561 | both stored results are null |
| Labirin.Session.Solve | Labirin/script.js:241-288 | on a valid maze the chosen solver yields a repeat-free open walk from start to end; the stored record for that solver has visited = the current visited count (between 1 and width * height) and pathLength = the path's length (at most width * height); the other record is unchanged |
| Labirin.Session.SolveRecursive | Labirin/script.js:245-262 | after the reset, dfsRekursif(startNode, []) does not return null on a generated maze; the stored record matches its path and count |
| Labirin.Session.SolveIterative | Labirin/script.js:245-267 | after the reset, dfsIteratif does not return an empty path on a generated maze; the stored record matches its path and count |
| Labirin.Session.StartRecursive | Labirin/script.js:260 | a result is a repeat-free open walk from start to end with the current visited count; null means the end was not marked and no open step leaves the marked cells |
| Labirin.Session.DfsRecursive | Labirin/script.js:291-327 | success: the shared path is the result, it starts with the path as given, then `cell`, ends at the end cell, is an open walk without repeats, and the count is the number of visited cells; failure: null with the shared path restored, the end not marked by the call, and every cell it marked having all open neighbours marked |
| Labirin.Session.TryNeighbors | Labirin/script.js:316-323 | the marked cells only grow and stay recorded by the flags; a success is the shared path, which continues the path as given to the end cell, with the current visited count; on failure the shared path is as given, the end was not marked by the loop, and the cell and every cell the loop marked have all their open neighbours marked |
| Labirin.RecursionFailed | Labirin/script.js:318-322 | after a failed child call every cell marked since the loop began has all its open neighbours marked |
| Labirin.Session.DfsIterative | Labirin/script.js:330-369 | a non-empty result is a repeat-free open walk from start to end; an empty one means the end was never marked and no open step leaves the marked cells; the count is the number of visited cells. Its loop invariant keeps every stacked entry's path a repeat-free open walk from start to its cell and every pushed cell distinct |
| Labirin.Session.PushNeighbors | Labirin/script.js:358-365 | the new stack is the old one with one entry `Entry(n, path + [n])` on top for each cell of `Pushes(ValidNeighbors(cell), marked)`, in that order; the pending and pushed lists grow by exactly those cells and the marked set by exactly those cells; every open neighbour of the popped cell is then marked, the stack stays well formed and the push history free of repeats |
| Labirin.Session.ScanNeighbors | Labirin/script.js:358-365 | the for loop over the open neighbours ends with the flags recording the marked cells, the stack well formed, and the pass having pushed exactly `Pushes(ValidNeighbors(cell), marked)` on top of the old stack |
| Labirin.Session.PushIfUnmarked | Labirin/script.js:361-364 | an unmarked open neighbour is marked and pushed on top with the popped path extended by it; a marked one leaves stack, lists and marks as they were |
| Labirin.AlongPush | Labirin/script.js:363 | pushing one more cell with the popped path extended by it extends the pass by that cell |
| Labirin.PassDone | Labirin/script.js:358-365 | after a full pass every open neighbour is marked, every newly marked cell is pending, no cell has been pushed twice, and either nothing changed or fewer cells are unmarked |
| Labirin.PushesStep | Labirin/script.js:361-364 | scanning one more neighbour pushes it iff it is neither marked beforehand nor pushed earlier in the pass |
| Labirin.PushesExact | Labirin/script.js:360-365 | a pass pushes exactly the listed neighbours that were not marked beforehand, each once |
| Labirin.PushesOrdered | Labirin/script.js:358-365 | neighbours listed in the order top, right, bottom, left are pushed in that order |
| Labirin.Popped | Labirin/script.js:335 | under the loop invariant, popping yields an entry whose path runs from start to its cell, leaves the rest of the stack well formed and the push history free of repeats |
| Labirin.Advanced | Labirin/script.js:334-366 | an iteration that pops a cell other than the end and pushes its unmarked open neighbours keeps the loop invariant: start marked, stack well formed, no cell pushed twice, every marked cell explored or pending, the end pending once marked |
| Labirin.StackTop | Labirin/script.js:335 | the popped entry's path runs from start to its cell and the rest of the stack stays well formed |
| Labirin.PushEntry | Labirin/script.js:361-363 | pushing a freshly marked open neighbour with the extended path keeps the stack well formed and its cells distinct |
| Labirin.FrontierKept | Labirin/script.js:334-366 | each iteration keeps every marked cell either fully explored or still on the stack, and keeps the end on the stack once marked |
| Labirin.NoClosedRegion | Labirin/script.js:259-267 | in a perfect maze, a set of marked cells holding the start with no open step leading out holds the end, so neither solver can fail |

## Left out

- Canvas and DOM drawing are not modelled. This covers `setupCanvas`, `gambarLabirin`, `gambarJalur`, `gambarGrafik`, `tampilkanAnalisis`, the `fillRect` calls inside both solvers, `disableButtons`/`enableButtons`, and the markup and chart clearing in `resetResults`. They only produce output.
- The event listeners and `parseInt` of the inputs (lines 63-107) are not modelled; width, height and `rng` are parameters. Width and height are required to be at least 1.
- The globals `lebar` and `tinggi` are taken to equal the size of the grid, which is what `buatLabirin` makes true. In the source the `change` listeners (lines 68-74) can alter them without rebuilding the grid, while the neighbour bounds (lines 163-164, 376-377), `countVisited` and the reset loops read them and `endNode` stays where line 153 put it. After such a change the source can fail where the model cannot: with a smaller width `dfsRekursif` can return `null` and line 261 throws, `dfsIteratif` stores a `pathLength` of 0, and a larger width makes line 248 throw.
- `sleep`, `async`/`await` and the `isRunning` flag are not modelled. They only schedule the animation; the model is sequential, and `Delay` only computes the pause length.
- `performance.now()`, `toFixed` and `parseFloat` (the `time` field of the results record) are not modelled. They are floating-point timing; the record keeps only `visited` and `pathLength`.
- `Math.random()` is not modelled. It is a foreign call, replaced by the draw sequence `rng`.
- `inPath` is never set by the engine. It is only cleared, and the model does the same.
- Labirin.Session.DfsIterative: the each-cell-pushed-once property is a loop invariant over a ghost list of pushed cells; the method's postcondition does not restate it.
- Labirin.Session.TryNeighbors: the order in which neighbours are tried (top, right, bottom, left) and the stop at the first success are fixed by the loop body but not stated in a contract. The same holds for the overall visiting order of DfsRecursive and DfsIterative; within one pass of the iterative solver, the order of the pushes is stated (PushNeighbors, PushesOrdered).
- `PROJECT/script.js` is not part of this model. It only attaches click handlers that show an alert.
