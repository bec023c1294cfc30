/** Concrete runs of the grid, each stated as the exact outcome the
    contracts of the model force. */
module Scenarios {
  import opened GridModel
  import opened SearchFacts
  import opened Pathfinding

  /** Solving before any start or end is placed explores nothing. */
  method NoMarkersScenario() returns (r: SolveResult)
    ensures r == Solved(false, [], [], 0, 0, "bfs")
  {
    var g := new PathfindingGrid(15, 25);
    r := g.Solve("bfs");
  }

  /** An unknown algorithm name is reported as an error. */
  method UnknownAlgorithmScenario() returns (r: SolveResult)
    ensures r == Error("Invalid algorithm")
  {
    var g := new PathfindingGrid(15, 25);
    var placed := g.SetStart(0, 0);
    placed := g.SetEnd(14, 24);
    r := g.Solve("dijkstra");
  }

  /** 3 x 3, start (0, 0), end (2, 2), walls at (0, 1) and (1, 0): moves are
      4-directional, so the two walls enclose the start.  The search fails
      after exploring the start cell alone. */
  method EnclosedStartScenario() returns (r: SolveResult)
    ensures r == Solved(false, [], [(0, 0)], 0, 1, "bfs")
  {
    var g := new PathfindingGrid(3, 3);
    var placed := g.SetStart(0, 0);
    placed := g.SetEnd(2, 2);
    placed := g.SetWall(0, 1);
    assert g.grid[0][1] == WALL;
    placed := g.SetWall(1, 0);
    assert g.grid[1][0] == WALL && g.grid[0][1] == WALL;
    forall q | Adjacent((0, 0), q) && InBounds(3, 3, q)
      ensures q == (1, 0) || q == (0, 1)
    {
    }
    r := g.Solve("bfs");
    var s, e := (0, 0), (2, 2);
    assert g.start == Some(s) && g.end == Some(e);
    assert SearchResult(g.grid, 3, 3, s, e, if r.success then Some(r.path) else None, r.visited);
    forall x | Reachable(g.grid, 3, 3, s, x)
      ensures x == s
    {
      EnclosedReachesOnlyItself(g.grid, 3, 3, s, x);
    }
    DistinctCard(r.visited);
    SubsetCard(Elems(r.visited), {s});
  }

  /** 3 x 3 with a single wall in the middle: breadth-first search finds a
      path of 5 cells, the fewest any walk around the wall can have. */
  method CentreWallBfsScenario() returns (r: SolveResult)
    ensures r.Solved? && r.success && r.pathLength == |r.path| == 5
    ensures r.path[0] == (0, 0) && r.path[4] == (2, 2)
    ensures 1 <= r.nodesExplored <= 9
  {
    var g := new PathfindingGrid(3, 3);
    var placed := g.SetStart(0, 0);
    placed := g.SetEnd(2, 2);
    placed := g.SetWall(1, 1);
    var w := [(0, 0), (0, 1), (0, 2), (1, 2), (2, 2)];
    assert IsPath(g.grid, 3, 3, w, (0, 0), (2, 2));
    r := g.Solve("bfs");
    WalkCoversManhattan(g.grid, 3, 3, r.path);
  }

  /** The same grid solved depth-first: a path is found, no shorter than the
      breadth-first one. */
  method CentreWallDfsScenario() returns (r: SolveResult)
    ensures r.Solved? && r.success && 5 <= r.pathLength == |r.path| <= 9
    ensures r.path[0] == (0, 0) && r.path[|r.path| - 1] == (2, 2)
  {
    var g := new PathfindingGrid(3, 3);
    var placed := g.SetStart(0, 0);
    placed := g.SetEnd(2, 2);
    placed := g.SetWall(1, 1);
    var w := [(0, 0), (0, 1), (0, 2), (1, 2), (2, 2)];
    assert IsPath(g.grid, 3, 3, w, (0, 0), (2, 2));
    r := g.Solve("dfs");
    WalkCoversManhattan(g.grid, 3, 3, r.path);
    DistinctOnBoard(r.path, 3, 3);
  }

  /** Placing the start on the end cell and then moving the end away clears
      that cell: the start is still recorded at (0, 0) but the matrix no
      longer shows it. */
  method StartOverEndScenario() returns (st: State)
    ensures st.start == Some((0, 0)) && st.end == Some((1, 1))
    ensures |st.grid| == 2 && |st.grid[0]| == 2 && |st.grid[1]| == 2
    ensures st.grid[0][0] == EMPTY && st.grid[1][1] == END
  {
    var g := new PathfindingGrid(2, 2);
    var placed := g.SetEnd(0, 0);
    placed := g.SetStart(0, 0);
    placed := g.SetEnd(1, 1);
    st := g.GetState();
  }
}
