# A* grid search, modelled in Dafny

This project models the A* path finder of `a_star_src/a_star/a-star.js`.

`aStar(maze)` returns a generator at once, with `runToCompletion` attached.
Its first `next()` call does the setup: it turns the rectangular grid of
wall/open flags into a grid of nodes and precomputes each open node's list of
non-wall neighbours among the eight surrounding cells. From then on the
generator runs the A* search one expansion per `next()` call:

- take the open node with the least fScore off the open list;
- stop with success when that node is the goal;
- otherwise close it, relax its neighbours (an undiscovered neighbour is pushed
  on the open list; a known one is updated only when the new cost is strictly
  lower) and yield the path back from it through the `cameFrom` links.

When the open list runs dry, the generator returns failure. `runToCompletion`
drives the generator to its end.

The model is split by the program's own helpers:

- `grid.dfy` (module `Grid`): cells, scores (`Infinite` or a finite real), the
  node record (a wall sentinel or an open node), the node arena indexed by
  position, and `nodesFromMaze`.
- `neighbors.dfy` (module `Neighbors`): the two nested scan loops of
  `calculateNeighbors`, proved to produce exactly the admissible cells in scan
  order.
- `open_set.dfy` (module `OpenSet`): `removeLowest`, meaning the reduce with
  its +infinity sentinel followed by `splice(indexOf(lowest), 1)`, including
  JavaScript's `splice(-1, 1)` when the sentinel survives.
- `path.dfy` (module `Path`): predecessor chains and the `reconstructPath`
  loop.
- `search_spec.dfy` (module `SearchSpec`): one `next()` call as a pure step
  function `Next` over a search state. It holds the invariant every step
  keeps, a termination measure, `Run` (what `runToCompletion` delivers) and
  what the reported paths mean.
- `astar.dfy` (module `AStar`): the generator as a class whose fields are
  updated in place. `Step` is one `next()` call, proved equal to `Next`;
  `RunToCompletion` is proved equal to `Run`.
- `example.dfy` (module `Example`): the 2x2 test case of
  `a_star/test/tests.js`, worked out with exact Euclidean distances.

The distance between cells (`distanceBetween`, and the heuristic built on it)
is a parameter `dist: (Coord, Coord) -> real` of the search. All structural
facts hold for every such function. The example fixes it to the exact
Euclidean distance.

On failure the code reports `reconstructPath(endNode)` (a-star.js:69), the
path back from the goal, not from the last closed node. Since the goal was
never reached, that path is the goal alone (`SearchSpec.ExhaustedFails`). The
code does not validate its input: an out-of-range start or goal, a start or
goal on a wall, and a grid with a later row shorter than the first (as soon as
an open cell borders a missing cell) make the first `next()` throw, and a grid
with a later row longer than the first runs with the extra cells left out of
every neighbour list. Here those inputs are excluded by the precondition
`ValidInput`, which is what `a_star/generate-maze.js` guarantees.

## Model

| member | source | states |
|---|---|---|
| SearchSpec.Heuristic | a_star_src/a_star/a-star.js:117-119 | defines calculateHeuristic: the distance from a cell to the goal |
| SearchSpec.Relax | a_star_src/a_star/a-star.js:37-51 | defines one turn of the neighbour loop: skip a closed neighbour; push and record an undiscovered one; skip a known one unless the tentative gScore is strictly lower; record predecessor, gScore and fScore |
| SearchSpec.RelaxAll | a_star_src/a_star/a-star.js:36-52 | defines the whole neighbour loop as `Relax` applied over the neighbour list in order |
| SearchSpec.Next | a_star_src/a_star/a-star.js:19-73 | defines one next() call: Idle once done; failure with the goal's path on an empty open list; success with the goal's path when removeLowest takes the goal; otherwise close the node, relax its neighbours and yield its path |
| OpenSet.TakeLowest | a_star_src/a_star/a-star.js:152-160 | defines removeLowest's result: the first element of least finite fScore with that occurrence removed, or the sentinel with the last element dropped |
| Grid.NodesFromMaze | a_star_src/a_star/a-star.js:83-102 | the node grid has the maze's shape; a cell is a wall node exactly when the maze marks it; every open cell becomes a node at its own position with infinite scores, no predecessor and no neighbours |
| Neighbors.NeighborList | a_star_src/a_star/a-star.js:130-144 | the scan of the 3x3 block yields exactly the in-grid non-wall cells at Chebyshev distance 1, each once, in row-then-column order |
| Neighbors.CalculateNeighbors | a_star_src/a_star/a-star.js:125-147 | shape kept; walls untouched; every open node's neighbour list is extended by its full neighbour list, and nothing else about the node changes |
| Neighbors.NeighborListUnique | a_star_src/a_star/a-star.js:130-139 | the neighbour list of a cell is determined by the walls: two lists meeting that description are equal |
| Neighbors.NeighborListTransfer | a_star_src/a_star/a-star.js:134-136 | two grids with the same walls have the same neighbour lists |
| OpenSet.LowestIndex | a_star_src/a_star/a-star.js:153-155 | the reduce keeps the sentinel exactly when no score is finite; otherwise it keeps an element of finite, least score that beats every earlier one strictly (the first of the least) |
| OpenSet.IndexOf | a_star_src/a_star/a-star.js:157 | `indexOf` returns -1 exactly when the element is absent, and otherwise its first position |
| OpenSet.SpliceOne | a_star_src/a_star/a-star.js:157 | `splice(k, 1)` removes position k; with -1 it removes the last element |
| OpenSet.RemoveLowest | a_star_src/a_star/a-star.js:152-160 | the reduce loop and the splice return the node and remaining list given by `TakeLowest` (first element of least finite fScore, that one occurrence removed; sentinel and last element dropped otherwise) |
| OpenSet.LowestIsFirstCopy | a_star_src/a_star/a-star.js:153-157 | the element the reduce keeps has no earlier copy, so `indexOf` finds the very occurrence the reduce chose |
| OpenSet.IndexOfFirstCopy | a_star_src/a_star/a-star.js:157 | `indexOf` of an element without an earlier copy is its own position |
| OpenSet.TakeLowestFacts | a_star_src/a_star/a-star.js:152-160 | on a list with a finite score, removeLowest returns a member whose fScore no other member beats, and the remaining list is the old one minus exactly that occurrence (as multisets) |
| OpenSet.TakeLowestNoDup | a_star_src/a_star/a-star.js:152-160 | on a list without duplicates, the rest has none, no longer holds the returned node, and holds only old members |
| Path.Chain | a_star_src/a_star/a-star.js:162-172 | the chain of visited cells starts at the given cell and has at most fuel+1 entries |
| Path.ReconstructPath | a_star_src/a_star/a-star.js:162-172 | the loop over `cameFrom` links returns exactly the set of cells on the predecessor chain of the node |
| Path.ChainLinks | a_star_src/a_star/a-star.js:166-169 | a chain that reaches a root ends at a node without predecessor, and each entry's predecessor is the next entry |
| Path.ChainNoRepeat | a_star_src/a_star/a-star.js:166-169 | a chain that reaches a root visits no cell twice |
| Path.ChainAdjacent | a_star_src/a_star/a-star.js:166-169 | when links step to adjacent cells, consecutive chain cells are 8-neighbours |
| Path.ChainStable | a_star_src/a_star/a-star.js:166-169 | once a chain reaches a root, more fuel does not change it (the walk stops by itself) |
| SearchSpec.RecordInv | a_star_src/a_star/a-star.js:39-51 | recording a strictly better (or first) path to an unclosed neighbour of a closed node keeps the search invariant, keeps closed nodes and the layout, and lowers gScores only |
| SearchSpec.RelaxInv | a_star_src/a_star/a-star.js:37-51 | one turn of the neighbour loop (skip closed, push new, skip no improvement, record) keeps the invariant and lowers gScores only |
| SearchSpec.RelaxAllInv | a_star_src/a_star/a-star.js:36-52 | the whole neighbour loop keeps the invariant and lowers gScores only |
| SearchSpec.CloseInv | a_star_src/a_star/a-star.js:20-34 | moving the lowest (non-goal) node from the open list to the closed set keeps the invariant |
| SearchSpec.LowestExists | a_star_src/a_star/a-star.js:19-20 | under the invariant, removeLowest on a non-empty open list never keeps its sentinel |
| SearchSpec.LowestIsDiscovered | a_star_src/a_star/a-star.js:20 | the node removeLowest takes has a finite gScore |
| SearchSpec.ExpandInv | a_star_src/a_star/a-star.js:20-61 | the expanding branch keeps the invariant; the node it closes was not closed before; closed nodes and layout are kept |
| SearchSpec.FinishInv | a_star_src/a_star/a-star.js:22-32 | returning keeps the invariant |
| SearchSpec.NextInv | a_star_src/a_star/a-star.js:19-73 | every call of next() keeps the invariant (layout, open list discovered and duplicate-free, score equations, closed predecessors, no cycles) and never crashes; a snapshot comes from the expanding branch |
| SearchSpec.ClosedFrozen | a_star_src/a_star/a-star.js:34-37 | a closed node stays closed, never returns to the open list and is never changed again |
| SearchSpec.MeasureBound | a_star_src/a_star/a-star.js:19 | the number of non-goal nodes still to close is never negative |
| SearchSpec.ExpandMeasure | a_star_src/a_star/a-star.js:34 | closing one more node, with the walls unchanged, lowers the measure by one |
| SearchSpec.NextMeasure | a_star_src/a_star/a-star.js:19-62 | every yielded snapshot lowers the measure by one, so the loop ends |
| SearchSpec.Run | a_star_src/a_star/a-star.js:189-203 | driving next() to its end ends neither in a snapshot nor in a crash |
| SearchSpec.RunResult | a_star_src/a_star/a-star.js:189-203 | a running search ends with a success-or-failure result |
| SearchSpec.GScoreIsChainCost | a_star_src/a_star/a-star.js:39-50 | a discovered node's gScore is the summed step cost of its predecessor chain |
| SearchSpec.TraceBack | a_star_src/a_star/a-star.js:162-172 | from any discovered node the predecessors lead back to the start, along adjacent cells, without repeats, at a cost equal to its gScore |
| SearchSpec.NextSucceeds | a_star_src/a_star/a-star.js:22-32 | success comes only from taking the goal off the open list, and reports the path back from the goal |
| SearchSpec.SuccessPath | a_star_src/a_star/a-star.js:22-32 | on success the reported path is the cell set of a route from the goal back to the start whose cost is the goal's gScore |
| SearchSpec.SnapshotPath | a_star_src/a_star/a-star.js:54-61 | a snapshot reports the cell set of the route from the node just closed back to the start |
| SearchSpec.ExhaustedFails | a_star_src/a_star/a-star.js:64-73 | when the open list runs dry, the result is a failure whose path is the goal alone |
| SearchSpec.InitialInv | a_star_src/a_star/a-star.js:4-17 | the state set up before the loop satisfies the invariant |
| SearchSpec.InitialUnique | a_star_src/a_star/a-star.js:4-17 | the set-up state is determined by the maze, start, goal and distance |
| SearchSpec.StartIsGoal | a_star_src/a_star/a-star.js:19-32 | a search whose start is its goal succeeds on the first call with the one-cell path |
| AStar.SetupIsInitial | a_star_src/a_star/a-star.js:4-17 | nodesFromMaze, calculateNeighbors and the start's scores produce the initial search state |
| AStar.Generator.constructor | a_star_src/a_star/a-star.js:183-184 | the generator starts in the initial state for the maze, with the invariant holding |
| AStar.Generator.Step | a_star_src/a_star/a-star.js:19-73 | one next() call updates the fields and returns the outcome exactly as `Next` prescribes, keeps the invariant, never crashes, and is done after any outcome other than a snapshot |
| AStar.Generator.Expand | a_star_src/a_star/a-star.js:34-61 | closing the node, the neighbour loop and the yield move the state as `Next` prescribes |
| AStar.Generator.RelaxNeighbors | a_star_src/a_star/a-star.js:36-52 | the loop over the neighbour list leaves the state `RelaxAll` prescribes |
| AStar.Generator.RelaxNeighbor | a_star_src/a_star/a-star.js:37-51 | one loop turn leaves the state `Relax` prescribes |
| AStar.Generator.RunToCompletion | a_star_src/a_star/a-star.js:189-203 | the loop over next() returns what `Run` prescribes, a search not yet finished ends with a result, and the generator is done afterwards |
| Example.CornerNeighbors | a_star/test/tests.js:93-102 | in the open 2x2 maze the neighbour list of (0,0) is (0,1), (1,0), (1,1) |
| Example.TwoByTwoDistances | a_star_src/a_star/a-star.js:107-111 | with Euclidean distances, side steps cost 1 and the diagonal lies strictly between 1 and 2 |
| Example.InitialTwoByTwo | a_star/test/tests.js:93-102 | the initial state of the 2x2 test has the start alone in the open list at gScore 0 |
| Example.FirstCall | a_star/test/tests.js:93-108 | the first call expands (0,0) and pushes its three neighbours; the side cells get fScore 2, the goal its diagonal cost |
| Example.SecondCall | a_star/test/tests.js:93-108 | the second call takes the goal and returns success with the path {(0,0), (1,1)} |
| Example.TwoByTwo | a_star/test/tests.js:93-108 | running the 2x2 test case to completion returns success with the path {"0,0", "1,1"} |

## Left out

- Floating point: `distanceBetween` uses `Math.hypot` on doubles; the model takes the distance as a real-valued parameter and exact arithmetic, so rounding is not modelled.
- String keys: the closed set and the path are objects keyed by each node's `toString` ("x,y"); the model uses sets of coordinates, which are equivalent for in-grid nodes.
- The echoed fields of snapshots and results (`maze`, `start`/`end` as strings, `closed`/`open` from `formatClosedSet`/`formatOpenSet`, which are empty and return undefined) are not modelled beyond the start and goal coordinates.
- `runToCompletion` returns a Promise; the model returns the final value directly, since the Promise only defers the same loop.
- The generator reads `maze.maze`, `maze.start` and `maze.end` and runs its setup lazily on the first `next()` (a-star.js:4-17, deferred further by `runToCompletion` at :193-195); the constructor here runs it eagerly, which matches the source only for a caller that does not change the maze object before the first `next()`.
- Node objects are shared by reference in the source; the model keeps them in a value arena indexed by position, so aliasing between the open list, neighbour lists and the grid is represented by coordinates.
- AStar.Generator.constructor: requires `ValidInput` (rectangular grid, start and goal inside it and not walls), as produced by `a_star/generate-maze.js`. Runs on other inputs are not modelled. There the source throws on the first `next()` for an out-of-range start or goal (a-star.js:5-6, 16-17 or 108); for a start or goal on a wall (the start's heuristic is then NaN, so removeLowest keeps its sentinel and the loop iterates the sentinel's missing neighbour list: :17, :153-157, :36); and for a later row shorter than the first once an open cell borders a missing cell (:135-136). For a grid whose later rows are longer than the first it runs without error, while the bounds test of `calculateNeighbors` (a-star.js:142-143, which reads the first row's length) leaves the extra cells out of every neighbour list, e.g. `[[0,0],[0,0,0]]` with goal (1,2) fails with the path {"1,2"}.
- The crash path when removeLowest keeps its sentinel (the loop would iterate the sentinel's missing neighbour list) is the `Fault` outcome of `Next`; `SearchSpec.NextInv` shows it cannot happen, so `Step` treats it as dead code.
- Optimality: the tests expect the shortest path, and A* returns one only for a consistent heuristic such as the Euclidean distance; with the distance left as a parameter, the model proves that the reported route is a real route whose cost is the goal's gScore, not that no cheaper route exists.
- The unused counter `yobro` and the maze generator and build configuration are not part of this model.
