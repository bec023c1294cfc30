# Pathfinding grid

A model of the `PathfindingGrid` class behind a small pathfinding
visualizer. The grid is a `rows x cols` matrix of cell codes: 0 empty, 1
wall, 2 start, 3 end. It also keeps an optional start coordinate and an
optional end coordinate. Clients place the start, the end and walls, clear
walls, reset the grid or generate a random maze, and then ask for a
breadth-first or depth-first search from start to end. A search returns the
path it found (if any) and the trace of cells in the order they were taken
off the frontier. `solve` wraps that pair into a result record, or reports
an error for an unknown algorithm name.

Files:

- `grid.dfy` (module `GridModel`): coordinates and cell codes, bounds,
  4-adjacency, and the `Step` relation. `Step` is a move to an adjacent,
  on-board, non-wall cell, and is the reference definition for the
  neighbour enumeration. The file also defines walks, reachability and
  shortest walks, and the counting facts that bound a trace by the number
  of cells.
- `search.dfy` (module `SearchFacts`):
  - `SearchResult`, which states what a finished search guarantees.
  - The loop invariants of both searches and the lemmas that carry them
    from one iteration to the next.
  - The level argument behind breadth-first optimality.
- `pathfinding.dfy` (module `Pathfinding`): the class itself.
  - `grid`, `start` and `end` are fields that the methods update in place.
  - The guarded mutators report success as a boolean.
  - `GetNeighbors`, `Bfs`, `Dfs` and `ReconstructPath` are loops with
    invariants.
  - `Solve` is the dispatcher, and `Report` is the result record it builds.
- `scenarios.dfy` (module `Scenarios`): concrete grids whose outcomes the
  contracts determine.

What is proved about the searches. Take a grid where both markers are set.
- Both searches return a trace that starts at the start cell, never repeats
  a cell, stays on the board, has at most `rows * cols` entries, and holds
  only cells reachable from the start.
- A path is returned exactly when the end is reachable.
- A returned path leads from start to end by single open moves without
  repeating a cell. It passes only through traced cells, and the end cell
  closes the trace.
- A failed search has traced exactly the cells reachable from the start.
- A breadth-first path has no more cells than any walk from start to end.

Breadth-first optimality is proved with a ghost `depth` map, which holds
each discovered cell's distance along parent links, and a ghost `level`.
They record the queue discipline: traced cells are no deeper than the
current level, and queued cells sit at the current level or the next one,
in order.

Where the design description of the system and its code disagree, the model
follows the code:

- The description promises that exactly one cell is marked start and
  exactly one end. The code does not keep this:
  - Placing the start on the end cell and then moving the end clears that
    cell, so the matrix no longer shows the start, which is still recorded.
  - `set_start` and `set_end` overwrite whatever the cell held, walls
    included.

  `Scenarios.StartOverEndScenario` shows the first point. `Valid` therefore
  only requires the stored markers to be on the board and not on a wall.
- The description's 3 x 3 example places walls at (0, 1) and (1, 0). Under
  the code's up/down/left/right moves those two walls enclose the start at
  (0, 0), so the search fails after tracing the start cell alone
  (`Scenarios.EnclosedStartScenario`).

## Model

| member | source | states |
|---|---|---|
| Pathfinding.PathfindingGrid.constructor | app.py:7-12 | the grid has the given dimensions, every cell is empty, and neither marker is set |
| Pathfinding.PathfindingGrid.SetStart | app.py:14-21 | succeeds exactly for an on-board coordinate; the old start cell becomes empty and the new one START; the end marker and all other cells are unchanged; a failure changes nothing |
| Pathfinding.PathfindingGrid.SetEnd | app.py:23-30 | the same as SetStart for the end marker and END |
| Pathfinding.PathfindingGrid.SetWall | app.py:32-37 | succeeds exactly for an on-board coordinate that is neither stored marker; only that cell changes, to WALL; the markers stay |
| Pathfinding.PathfindingGrid.ClearCell | app.py:39-44 | succeeds exactly on an on-board wall cell, which becomes empty; nothing else changes |
| Pathfinding.PathfindingGrid.Reset | app.py:141-144 | every cell is empty and both markers are unset; the grid invariant is kept |
| Pathfinding.PathfindingGrid.GetState | app.py:146-153 | the snapshot has the grid's dimensions and shape, and any marker it reports is on the board and not on a wall |
| Pathfinding.PathfindingGrid.GenerateMaze | app.py:155-172 | given the per-cell wall draws and the marker picks from the left and right quarters, the cells are END at the end pick, else START at the start pick, else WALL where drawn, else empty; both markers are set and the snapshot is the new state |
| Pathfinding.PathfindingGrid.GetNeighbors | app.py:46-56 | the result holds exactly the cells one Step away, without repetition, at most four, in up/down/left/right order |
| Pathfinding.PathfindingGrid.DiscoverNeighbors | app.py:78-82 | after the loop over the neighbours, the frontier is the old one followed by the not yet visited neighbours in enumeration order, each once; the visited set is the old one plus all neighbours; those new cells get the current cell as parent and older parent links stay; the search tree invariant and the breadth-first level discipline are kept |
| Pathfinding.PathfindingGrid.ReconstructPath | app.py:113-122 | following parent links from the end and reversing gives a walk from start to end, one cell longer than the end's depth, each cell the parent of the next |
| Pathfinding.PathfindingGrid.Bfs | app.py:58-84 | with a marker missing: no path and an empty trace; otherwise SearchResult holds, and a returned path is no longer than any walk from start to end |
| Pathfinding.PathfindingGrid.Dfs | app.py:86-111 | with a marker missing: no path and an empty trace; otherwise SearchResult holds |
| Pathfinding.PathfindingGrid.Solve | app.py:124-139 | an error "Invalid algorithm" exactly for names other than "bfs" and "dfs"; otherwise the search's outcome with the name echoed, a path length equal to the path's size, an explored count equal to the trace's size, success exactly when a path came back, and shortest paths for "bfs" |
| Pathfinding.Report | app.py:132-139 | success exactly when a path is given; the path is empty when none is given; the counts are the sizes of the path and of the trace |
| GridModel.EmptyGrid | app.py:10 | a rows x cols matrix of empty cells |
| GridModel.DirectionOf | app.py:48 | a cell has a position below 4 in the up/down/left/right order exactly when it is adjacent, and it then lies at that offset |
| GridModel.DirectionOfOffset | app.py:48-51 | the k-th offset leads to the one cell whose direction is k |
| GridModel.Reverse | app.py:121 | the reversed sequence has the same length, with entry i taken from the mirrored position |
| GridModel.ExtendPath | app.py:80-81 | a walk from the start extended by one Step is still a walk from the start |
| GridModel.ClosedSetHoldsWalk | app.py:76-82 | a walk starting in a set closed under Step stays in that set |
| GridModel.WalkCoversManhattan | app.py:46-56 | a walk has at least as many moves as the Manhattan distance between its ends |
| GridModel.EnclosedReachesOnlyItself | app.py:46-56 | a cell without an open neighbour reaches only itself |
| GridModel.AllCellsMembers | app.py:10 | the board's cell set holds exactly the in-bounds coordinates |
| GridModel.AllCellsCard | app.py:10 | a rows x cols board has rows * cols cells |
| GridModel.DistinctCard | app.py:64 | a sequence without repetition has as many distinct elements as entries |
| GridModel.DistinctOnBoard | app.py:64-70 | a repetition-free sequence of board cells has at most rows * cols entries |
| SearchFacts.TreeReachable | app.py:78-82 | every cell with a recorded parent link is reachable from the start |
| SearchFacts.ChainDepths | app.py:117-119 | the i-th cell of a parent chain from the start is at depth i, so the chain never repeats a cell |
| SearchFacts.LevelBound | app.py:62-82 | under the queue discipline, the i-th cell of any walk from the start was discovered at depth at most i |
| SearchFacts.BfsFound | app.py:72-74 | a breadth-first search that dequeues the end returns a path satisfying SearchResult that is no longer than any walk to the end |
| SearchFacts.DfsFound | app.py:99-101 | a depth-first search that pops the end returns a path satisfying SearchResult |
| SearchFacts.BfsExhausted | app.py:84 | a breadth-first search whose queue runs dry reports no path, and its trace is exactly the reachable cells |
| SearchFacts.DfsExhausted | app.py:111 | a depth-first search whose stack runs dry reports no path, and its trace is exactly the reachable cells |
| SearchFacts.TraceFacts | app.py:66-70 | traced cells are on the board, reachable, and at most rows * cols in number |
| SearchFacts.ExhaustedFacts | app.py:68-84 | when every traced cell has had its neighbours discovered, the trace holds exactly the reachable cells |
| SearchFacts.FoundOutcome | app.py:72-74 | a path rebuilt from parent links, when the end closes the trace, repeats no cell and passes only through traced cells |
| SearchFacts.ExhaustedOutcome | app.py:84 | an exhausted search with every traced cell expanded satisfies SearchResult with no path |
| SearchFacts.InitialState | app.py:62-66 | the initial frontier holding only the start satisfies both loop invariants |
| SearchFacts.TakeFrom | app.py:69-70 | moving the head of a queue, or the top of a stack, onto the trace keeps the search tree invariant |
| SearchFacts.TakeKeepsBookkeeping | app.py:69-70 | moving a frontier end onto the trace keeps visited = trace + frontier with neither repeating a cell |
| SearchFacts.BfsTake | app.py:69-70 | dequeuing keeps the search tree invariant and raises the level to the dequeued cell's depth |
| SearchFacts.DfsTake | app.py:95-97 | popping keeps the search tree invariant |
| SearchFacts.BfsResume | app.py:76-82 | after the neighbours of a dequeued non-end cell are discovered, the breadth-first invariant holds again, and either a new cell was visited or the queue shrank |
| SearchFacts.DfsResume | app.py:103-109 | the same for a popped cell and the depth-first invariant |
| SearchFacts.Discover | app.py:79-82 | discovering an unvisited open neighbour adds it to the frontier, the visited set and the parent tree, one level below its parent |
| SearchFacts.FreshNeighbors | app.py:78-82 | the cells a pass over the neighbours discovers are exactly the neighbours not already visited, without repetition |
| SearchFacts.FreshStep | app.py:79 | the next neighbour is newly discovered exactly when it is not yet visited |
| SearchFacts.DiscoveredNew | app.py:79-82 | an unvisited neighbour is appended to the frontier and gets the current cell as parent, other parent links unchanged |
| SearchFacts.DiscoveredSeen | app.py:79 | a visited neighbour leaves the frontier and the parent links unchanged |
| SearchFacts.NeighborNew | app.py:79-82 | the neighbour loop's invariant survives discovering a new neighbour |
| SearchFacts.NeighborSeen | app.py:79 | the neighbour loop's invariant survives skipping a visited neighbour |
| SearchFacts.LevelsNew | app.py:82 | enqueuing a new neighbour keeps the level discipline |
| SearchFacts.LevelsSeen | app.py:79 | an already visited neighbour is at most one level below the current cell |
| SearchFacts.ExpandCurrent | app.py:76-82 | once every neighbour is visited, the current cell counts as expanded |
| SearchFacts.ExpandCurrentByLevel | app.py:76-82 | the breadth-first form: the neighbours of the current cell are at most one level deeper |
| SearchFacts.ExpandedByLevelGrows | app.py:78-82 | adding cells to the depth map keeps the facts about earlier cells |
| SearchFacts.UnvisitedShrinks | app.py:68-82 | visiting a new cell strictly shrinks the set of unvisited cells, which is why both loops terminate |
| SearchFacts.Dequeue | app.py:69 | dequeuing the head raises the level to its depth and keeps the queue ordered |
| SearchFacts.Enqueue | app.py:82 | appending a cell one level deeper keeps the queue ordered |
| SearchFacts.ExpandedFromLevels | app.py:76-82 | the breadth-first expansion facts imply every traced cell's neighbours are visited |
| SearchFacts.LevelOfVisited | app.py:79 | a traced or queued cell lies at most one level below the current level |
| Scenarios.NoMarkersScenario | app.py:58-60 | solving without markers reports failure with an empty path and an empty trace |
| Scenarios.UnknownAlgorithmScenario | app.py:129-130 | an unknown algorithm name yields the "Invalid algorithm" error |
| Scenarios.EnclosedStartScenario | app.py:58-84 | walls at (0, 1) and (1, 0) enclose the start at (0, 0): the search fails, and its trace is the start alone |
| Scenarios.CentreWallBfsScenario | app.py:58-84 | with a wall in the centre of a 3 x 3 grid, breadth-first search finds a 5-cell path from corner to corner |
| Scenarios.CentreWallDfsScenario | app.py:86-111 | on the same grid depth-first search finds a path of 5 to 9 cells from corner to corner |
| Scenarios.StartOverEndScenario | app.py:14-30 | ending on (0, 0), starting on (0, 0) and then ending on (1, 1) leaves the start recorded at (0, 0) while that cell reads empty |

## Left out

- The Flask routes, the request and response layer, and JSON
  serialization. This includes the `{"row", "col"}` records for
  coordinates, which are plain pairs here, and the dictionary shape of
  results and snapshots.
- The module-level shared grid and any concurrent access to it.
- Pathfinding.PathfindingGrid.constructor: the default dimensions 20 x 30
  are not modelled. The dimensions are always passed explicitly, as the
  module-level instance does with 15 x 25.
- Pathfinding.PathfindingGrid.GenerateMaze: the random draws are
  parameters. `walls[r][c]` stands for the outcome of comparing a
  `random.random()` draw with the floating-point `density`, so the density
  itself is not modelled. The start and end picks are parameters that must
  lie in the ranges `random.randint` draws from. Those ranges are empty for
  an empty grid, where the original raises.
- Pathfinding.PathfindingGrid.GetState: returns a value snapshot. In the
  original the snapshot shares the matrix with the grid, so later updates
  show through an earlier snapshot. That aliasing is not modelled.
- Dimensions are natural numbers and coordinates are integers. Negative
  dimensions and non-integer arguments are not modelled.
- Pathfinding.PathfindingGrid.ReconstructPath: it requires the end cell to
  have a parent entry. In the original a missing entry would raise a
  `KeyError`, but both searches call it only after dequeuing or popping the
  end cell, and every such cell has an entry.
- Pathfinding.PathfindingGrid.DiscoverNeighbors: the inner loop of both
  searches (app.py:78-82 and 105-109) is written once as its own method. It
  is not a separate function in the original.
- Pathfinding.PathfindingGrid.Bfs: the contract fixes the outcome of the
  search but not the exact order of the whole trace. It does not state
  which cell comes next when several are at the same depth. The order of
  each single expansion is fixed by the contracts of `GetNeighbors` and
  `DiscoverNeighbors`.
- Pathfinding.PathfindingGrid.Dfs: the contract fixes the outcome but not
  the exact order of the trace. Among several possible paths, it does not
  say which one is returned.
