/** The pathfinding grid: a rows x cols matrix of cell codes with optional
    start and end markers, guarded mutators that report success as a
    boolean, a 4-neighbour enumeration, breadth-first and depth-first search
    from start to end, and the solve dispatcher that reports their results. */
module Pathfinding {
  import opened GridModel
  import opened SearchFacts

  /** The snapshot handed to the service layer by get_state. */
  datatype State = State(grid: seq<seq<int>>, rows: nat, cols: nat, start: Option<Coord>, end: Option<Coord>)

  /** What solve reports: an error for an unknown algorithm name, otherwise
      the search outcome with its counts. */
  datatype SolveResult =
    | Error(message: string)
    | Solved(success: bool, path: seq<Coord>, visited: seq<Coord>,
             pathLength: nat, nodesExplored: nat, algorithm: string)

  /** The result record solve builds from a search's (path, trace) pair. */
  function Report(algorithm: string, path: Option<seq<Coord>>, visited: seq<Coord>): (r: SolveResult)
    ensures r.Solved? && r.algorithm == algorithm && r.visited == visited
    ensures r.success <==> path.Some?
    ensures r.path == (if path.Some? then path.value else [])
    ensures r.pathLength == |r.path| && r.nodesExplored == |r.visited|
  {
    var found := path.Some? && path.value != [];
    Solved(path.Some?, if found then path.value else [], visited,
           if found then |path.value| else 0, |visited|, algorithm)
  }

  class PathfindingGrid {
    const rows: nat
    const cols: nat
    var grid: seq<seq<int>>
    var start: Option<Coord>
    var end: Option<Coord>

    /** The matrix has the fixed dimensions and holds only the four codes;
        a stored start or end lies on the board, on a cell that is not a wall. */
    ghost predicate Valid()
      reads this
    {
      WellShaped(grid, rows, cols) &&
      (forall r, c :: 0 <= r < rows && 0 <= c < cols ==> EMPTY <= grid[r][c] <= END) &&
      (start.Some? ==> InBounds(rows, cols, start.value) && grid[start.value.0][start.value.1] != WALL) &&
      (end.Some? ==> InBounds(rows, cols, end.value) && grid[end.value.0][end.value.1] != WALL)
    }

    constructor (rows: nat, cols: nat)
      ensures Valid() && this.rows == rows && this.cols == cols
      ensures forall r, c :: 0 <= r < rows && 0 <= c < cols ==> grid[r][c] == EMPTY
      ensures start == None && end == None
    {
      this.rows := rows;
      this.cols := cols;
      grid := EmptyGrid(rows, cols);
      start := None;
      end := None;
    }

    /** Moves the start marker: the previous start cell (if any) becomes
        empty, the new one START, whatever it held before. */
    method SetStart(row: int, col: int) returns (ok: bool)
      requires Valid()
      modifies this
      ensures Valid()
      ensures ok <==> InBounds(rows, cols, (row, col))
      ensures !ok ==> grid == old(grid) && start == old(start)
      ensures ok ==> start == Some((row, col))
      ensures end == old(end)
      ensures forall r, c :: 0 <= r < rows && 0 <= c < cols ==>
                grid[r][c] == if ok && (r, c) == (row, col) then START
                              else if ok && old(start) == Some((r, c)) then EMPTY
                              else old(grid)[r][c]
    {
      if 0 <= row < rows && 0 <= col < cols {
        if start.Some? {
          var (r, c) := start.value;
          grid := grid[r := grid[r][c := EMPTY]];
        }
        start := Some((row, col));
        grid := grid[row := grid[row][col := START]];
        return true;
      }
      return false;
    }

    /** Moves the end marker, as SetStart does for the start marker. */
    method SetEnd(row: int, col: int) returns (ok: bool)
      requires Valid()
      modifies this
      ensures Valid()
      ensures ok <==> InBounds(rows, cols, (row, col))
      ensures !ok ==> grid == old(grid) && end == old(end)
      ensures ok ==> end == Some((row, col))
      ensures start == old(start)
      ensures forall r, c :: 0 <= r < rows && 0 <= c < cols ==>
                grid[r][c] == if ok && (r, c) == (row, col) then END
                              else if ok && old(end) == Some((r, c)) then EMPTY
                              else old(grid)[r][c]
    {
      if 0 <= row < rows && 0 <= col < cols {
        if end.Some? {
          var (r, c) := end.value;
          grid := grid[r := grid[r][c := EMPTY]];
        }
        end := Some((row, col));
        grid := grid[row := grid[row][col := END]];
        return true;
      }
      return false;
    }

    /** Walls a cell unless it is off the board or is the stored start or end
        coordinate (the coordinates are compared, not the cell code). */
    method SetWall(row: int, col: int) returns (ok: bool)
      requires Valid()
      modifies this
      ensures Valid()
      ensures ok <==> InBounds(rows, cols, (row, col)) && start != Some((row, col)) && end != Some((row, col))
      ensures start == old(start) && end == old(end)
      ensures forall r, c :: 0 <= r < rows && 0 <= c < cols ==>
                grid[r][c] == if ok && (r, c) == (row, col) then WALL else old(grid)[r][c]
    {
      if 0 <= row < rows && 0 <= col < cols {
        if Some((row, col)) != start && Some((row, col)) != end {
          grid := grid[row := grid[row][col := WALL]];
          return true;
        }
      }
      return false;
    }

    /** Turns a wall back into an empty cell; any other cell is left alone. */
    method ClearCell(row: int, col: int) returns (ok: bool)
      requires Valid()
      modifies this
      ensures Valid()
      ensures ok <==> InBounds(rows, cols, (row, col)) && old(grid)[row][col] == WALL
      ensures start == old(start) && end == old(end)
      ensures forall r, c :: 0 <= r < rows && 0 <= c < cols ==>
                grid[r][c] == if ok && (r, c) == (row, col) then EMPTY else old(grid)[r][c]
    {
      if 0 <= row < rows && 0 <= col < cols {
        if grid[row][col] == WALL {
          grid := grid[row := grid[row][col := EMPTY]];
          return true;
        }
      }
      return false;
    }

    method Reset()
      requires Valid()
      modifies this
      ensures Valid()
      ensures forall r, c :: 0 <= r < rows && 0 <= c < cols ==> grid[r][c] == EMPTY
      ensures start == None && end == None
    {
      grid := EmptyGrid(rows, cols);
      start := None;
      end := None;
    }

    function GetState(): (st: State)
      reads this
      requires Valid()
      ensures st.rows == rows && st.cols == cols && WellShaped(st.grid, rows, cols)
      ensures st.start.Some? ==>
                InBounds(rows, cols, st.start.value) && st.grid[st.start.value.0][st.start.value.1] != WALL
      ensures st.end.Some? ==>
                InBounds(rows, cols, st.end.value) && st.grid[st.end.value.0][st.end.value.1] != WALL
    {
      State(grid, rows, cols, start, end)
    }

    /** The deterministic part of maze generation.  `walls[r][c]` is the
        outcome of the per-cell random draw (true: the cell becomes a wall);
        the start and end coordinates are the random picks, the start in the
        left quarter of the columns and the end in the right quarter. */
    method GenerateMaze(walls: seq<seq<bool>>, startRow: int, startCol: int, endRow: int, endCol: int)
      returns (st: State)
      requires Valid()
      requires |walls| == rows && forall r :: 0 <= r < rows ==> |walls[r]| == cols
      requires 0 <= startRow < rows && 0 <= startCol <= cols / 4
      requires 0 <= endRow < rows && 3 * cols / 4 <= endCol < cols
      modifies this
      ensures Valid() && st == GetState()
      ensures start == Some((startRow, startCol)) && end == Some((endRow, endCol))
      ensures forall r, c :: 0 <= r < rows && 0 <= c < cols ==>
                grid[r][c] == if (r, c) == (endRow, endCol) then END
                              else if (r, c) == (startRow, startCol) then START
                              else if walls[r][c] then WALL
                              else EMPTY
    {
      Reset();
      for row := 0 to rows
        invariant Valid() && start == None && end == None
        invariant forall r, c :: 0 <= r < rows && 0 <= c < cols ==>
                    grid[r][c] == if r < row && walls[r][c] then WALL else EMPTY
      {
        for col := 0 to cols
          invariant Valid() && start == None && end == None
          invariant forall r, c :: 0 <= r < rows && 0 <= c < cols ==>
                      grid[r][c] == if (r < row || (r == row && c < col)) && walls[r][c] then WALL else EMPTY
        {
          if walls[row][col] {
            grid := grid[row := grid[row][col := WALL]];
          }
        }
      }
      var startSet := SetStart(startRow, startCol);
      var endSet := SetEnd(endRow, endCol);
      st := GetState();
    }

    /** The open 4-neighbours of (row, col), tried up, down, left, right. */
    method GetNeighbors(row: int, col: int) returns (neighbors: seq<Coord>)
      requires Valid()
      ensures forall q :: q in neighbors <==> Step(grid, rows, cols, (row, col), q)
      ensures forall i, j :: 0 <= i < j < |neighbors| ==>
                DirectionOf((row, col), neighbors[i]) < DirectionOf((row, col), neighbors[j])
      ensures Distinct(neighbors) && |neighbors| <= 4
    {
      neighbors := [];
      for k := 0 to |Directions|
        invariant forall q :: q in neighbors <==>
                    Step(grid, rows, cols, (row, col), q) && DirectionOf((row, col), q) < k
        invariant forall i :: 0 <= i < |neighbors| ==> DirectionOf((row, col), neighbors[i]) < k
        invariant forall i, j :: 0 <= i < j < |neighbors| ==>
                    DirectionOf((row, col), neighbors[i]) < DirectionOf((row, col), neighbors[j])
        invariant |neighbors| <= k
      {
        DirectionOfOffset((row, col), k);
        var (dr, dc) := Directions[k];
        var newRow, newCol := row + dr, col + dc;
        if 0 <= newRow < rows && 0 <= newCol < cols {
          if grid[newRow][newCol] != WALL {
            neighbors := neighbors + [(newRow, newCol)];
          }
        }
      }
    }

    /** Follows the parent links from the end cell back to the start and
        reverses the walk collected on the way. */
    method ReconstructPath(parent: map<Coord, Option<Coord>>, ghost depth: map<Coord, nat>)
      returns (path: seq<Coord>)
      requires Valid() && start.Some? && end.Some?
      requires ParentTree(grid, rows, cols, start.value, parent, depth)
      requires end.value in parent
      ensures IsPath(grid, rows, cols, path, start.value, end.value)
      ensures |path| == depth[end.value] + 1
      ensures forall i :: 0 <= i < |path| - 1 ==> ParentOf(parent, path[i], path[i + 1])
    {
      var e := end.value;
      var rev: seq<Coord> := [];
      var current := end;
      while current.Some?
        invariant current.Some? ==> current.value in parent && |rev| + depth[current.value] == depth[e]
        invariant current.None? ==> |rev| == depth[e] + 1 && rev[|rev| - 1] == start.value
        invariant rev == [] ==> current == end
        invariant forall j :: 0 <= j < |rev| ==> rev[j] in parent
        invariant rev != [] ==> rev[0] == e && parent[rev[|rev| - 1]] == current
        invariant forall j :: 0 <= j < |rev| - 1 ==> ParentOf(parent, rev[j + 1], rev[j])
        decreases if current.Some? then depth[current.value] + 1 else 0
      {
        rev := rev + [current.value];
        current := parent[current.value];
      }
      path := Reverse(rev);
      forall i | 0 <= i < |path| - 1
        ensures ParentOf(parent, path[i], path[i + 1])
        ensures Step(grid, rows, cols, path[i], path[i + 1])
      {
        assert path[i + 1] == rev[|rev| - 2 - i] && path[i] == rev[|rev| - 1 - i];
      }
    }

    /** The loop both searches run over the neighbours of `current`: each
        one not yet visited is marked visited, gets `current` as its parent
        and is appended to the frontier (the back of the queue, the top of
        the stack).  `depth` and `level` are proof bookkeeping. */
    method DiscoverNeighbors(current: Coord, neighbors: seq<Coord>, frontier: seq<Coord>,
                             visited: set<Coord>, parent: map<Coord, Option<Coord>>,
                             ghost depth: map<Coord, nat>, ghost trace: seq<Coord>, ghost level: nat)
      returns (frontier': seq<Coord>, visited': set<Coord>, parent': map<Coord, Option<Coord>>,
               ghost depth': map<Coord, nat>)
      requires Valid() && start.Some?
      requires SearchTree(grid, rows, cols, start.value, trace, frontier, visited, parent, depth)
      requires current in trace
      requires forall n :: n in neighbors ==> Step(grid, rows, cols, current, n)
      ensures NeighborLoop(grid, rows, cols, start.value, trace, current, neighbors, |neighbors|,
                           frontier, visited, depth, frontier', visited', parent', depth')
      ensures NeighborLevels(trace, current, neighbors, |neighbors|, frontier, depth, level, frontier', depth')
      ensures frontier' == frontier + FreshNeighbors(neighbors, visited)
      ensures forall x :: x in visited' <==> x in visited || x in neighbors
      ensures forall x :: x in parent ==> x in parent' && parent'[x] == parent[x]
      ensures forall x :: x in neighbors && x !in visited ==> x in parent' && parent'[x] == Some(current)
    {
      frontier', visited', parent', depth' := frontier, visited, parent, depth;
      for k := 0 to |neighbors|
        invariant NeighborLoop(grid, rows, cols, start.value, trace, current, neighbors, k,
                               frontier, visited, depth, frontier', visited', parent', depth')
        invariant NeighborLevels(trace, current, neighbors, k, frontier, depth, level, frontier', depth')
        invariant NewlyDiscovered(current, neighbors, k, frontier, visited, parent, frontier', parent')
      {
        var next := neighbors[k];
        if next !in visited' {
          DiscoveredNew(current, neighbors, k, frontier, visited, parent, frontier', visited', parent');
          assert Step(grid, rows, cols, current, next) by { assert next in neighbors; }
          NeighborNew(grid, rows, cols, start.value, trace, current, neighbors, k,
                      frontier, visited, depth, frontier', visited', parent', depth');
          LevelsNew(trace, current, neighbors, k, frontier, depth, level, frontier', depth');
          visited' := visited' + {next};
          parent' := parent'[next := Some(current)];
          depth' := depth'[next := depth'[current] + 1];
          frontier' := frontier' + [next];
        } else {
          DiscoveredSeen(current, neighbors, k, frontier, visited, parent, frontier', visited', parent');
          NeighborSeen(grid, rows, cols, start.value, trace, current, neighbors, k,
                       frontier, visited, depth, frontier', visited', parent', depth');
          LevelsSeen(trace, current, neighbors, k, frontier, depth, level, frontier', depth');
        }
      }
      assert neighbors[..|neighbors|] == neighbors;
    }

    /** Breadth-first search from start to end with a first-in-first-out
        frontier; cells are marked visited, and given their parent, when they
        are enqueued, and logged in the trace when they are dequeued. */
    method Bfs() returns (path: Option<seq<Coord>>, trace: seq<Coord>)
      requires Valid()
      ensures start.None? || end.None? ==> path == None && trace == []
      ensures start.Some? && end.Some? ==>
                SearchResult(grid, rows, cols, start.value, end.value, path, trace)
      ensures start.Some? && end.Some? && path.Some? ==>
                Shortest(grid, rows, cols, start.value, end.value, path.value)
    {
      if start.None? || end.None? {
        return None, [];
      }
      var s, e := start.value, end.value;
      var queue := [s];
      var visited := {s};
      var parent := map[s := None];
      ghost var depth: map<Coord, nat> := map[s := 0];
      ghost var level: nat := 0;
      trace := [];
      InitialState(grid, rows, cols, s, e);
      while queue != []
        invariant BfsInvariant(grid, rows, cols, s, e, trace, queue, visited, parent, depth, level)
        decreases AllCells(rows, cols) - visited, |queue|
      {
        var current := queue[0];
        ghost var done, pending, visitedBefore, parentBefore, depthBefore, levelBefore :=
          trace, queue, visited, parent, depth, level;
        queue := queue[1..];
        trace := trace + [current];
        if current == e {
          var found := ReconstructPath(parent, depth);
          BfsFound(grid, rows, cols, s, e, done, pending, visited, parent, depth, level, found);
          return Some(found), trace;
        }
        BfsTake(grid, rows, cols, s, e, done, pending, visited, parent, depth, level);
        level := depth[current];
        var neighbors := GetNeighbors(current.0, current.1);
        queue, visited, parent, depth :=
          DiscoverNeighbors(current, neighbors, queue, visited, parent, depth, trace, level);
        BfsResume(grid, rows, cols, s, e, done, pending, visitedBefore, parentBefore, depthBefore, levelBefore,
                  current, neighbors, queue, visited, parent, depth);
      }
      BfsExhausted(grid, rows, cols, s, e, trace, visited, parent, depth, level);
      path := None;
    }

    /** Depth-first search: the same loop with a last-in-first-out frontier.
        Cells are marked visited, and given their parent, when they are
        pushed, not when they are popped. */
    method Dfs() returns (path: Option<seq<Coord>>, trace: seq<Coord>)
      requires Valid()
      ensures start.None? || end.None? ==> path == None && trace == []
      ensures start.Some? && end.Some? ==>
                SearchResult(grid, rows, cols, start.value, end.value, path, trace)
    {
      if start.None? || end.None? {
        return None, [];
      }
      var s, e := start.value, end.value;
      var stack := [s];
      var visited := {s};
      var parent := map[s := None];
      ghost var depth: map<Coord, nat> := map[s := 0];
      trace := [];
      InitialState(grid, rows, cols, s, e);
      while stack != []
        invariant DfsInvariant(grid, rows, cols, s, e, trace, stack, visited, parent, depth)
        decreases AllCells(rows, cols) - visited, |stack|
      {
        var current := stack[|stack| - 1];
        ghost var done, pending, visitedBefore, parentBefore, depthBefore :=
          trace, stack, visited, parent, depth;
        stack := stack[..|stack| - 1];
        trace := trace + [current];
        if current == e {
          var found := ReconstructPath(parent, depth);
          DfsFound(grid, rows, cols, s, e, done, pending, visited, parent, depth, found);
          return Some(found), trace;
        }
        DfsTake(grid, rows, cols, s, e, done, pending, visited, parent, depth);
        var neighbors := GetNeighbors(current.0, current.1);
        stack, visited, parent, depth :=
          DiscoverNeighbors(current, neighbors, stack, visited, parent, depth, trace, 0);
        DfsResume(grid, rows, cols, s, e, done, pending, visitedBefore, parentBefore, depthBefore,
                  current, neighbors, stack, visited, parent, depth);
      }
      DfsExhausted(grid, rows, cols, s, e, trace, visited, parent, depth);
      path := None;
    }

    /** Runs the named search and reports its outcome; any name other than
        "bfs" or "dfs" is an error and runs nothing. */
    method Solve(algorithm: string) returns (result: SolveResult)
      requires Valid()
      ensures result.Error? <==> algorithm != "bfs" && algorithm != "dfs"
      ensures result.Error? ==> result.message == "Invalid algorithm"
      ensures result.Solved? ==>
                result.algorithm == algorithm &&
                result.pathLength == |result.path| && result.nodesExplored == |result.visited| &&
                (result.success <==> result.path != [])
      ensures result.Solved? && (start.None? || end.None?) ==>
                !result.success && result.path == [] && result.visited == []
      ensures result.Solved? && start.Some? && end.Some? ==>
                SearchResult(grid, rows, cols, start.value, end.value,
                             if result.success then Some(result.path) else None, result.visited)
      ensures result.Solved? && result.success && algorithm == "bfs" ==>
                start.Some? && end.Some? &&
                Shortest(grid, rows, cols, start.value, end.value, result.path)
    {
      var path: Option<seq<Coord>>, visited: seq<Coord>;
      if algorithm == "bfs" {
        path, visited := Bfs();
      } else if algorithm == "dfs" {
        path, visited := Dfs();
      } else {
        return Error("Invalid algorithm");
      }
      result := Report(algorithm, path, visited);
    }
  }
}
