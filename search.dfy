/** What the two graph searches promise, and the facts about their parent
    links and discovery depths that the loop proofs rely on. */
module SearchFacts {
  import opened GridModel

  /** k was discovered from p. */
  predicate ParentOf(parent: map<Coord, Option<Coord>>, p: Coord, k: Coord) {
    k in parent && parent[k] == Some(p)
  }

  /** The parent links a search records: `parent` maps every discovered cell
      to the cell it was discovered from (None for the start), and `depth`
      counts the links back to the start, so following them terminates. */
  ghost predicate ParentTree(g: seq<seq<int>>, rows: int, cols: int, s: Coord,
                             parent: map<Coord, Option<Coord>>, depth: map<Coord, nat>)
    requires WellShaped(g, rows, cols)
  {
    s in parent && parent[s] == None && s in depth && depth[s] == 0 &&
    (forall k :: k in parent ==> k in depth && (parent[k] == None ==> k == s)) &&
    (forall p, k :: ParentOf(parent, p, k) ==>
       p in parent && p in depth && depth[k] == depth[p] + 1 && Step(g, rows, cols, p, k))
  }

  /** The outcome of a search from s to e, given the path it returned (if any)
      and the trace of cells in the order they were taken off the frontier. */
  ghost predicate SearchResult(g: seq<seq<int>>, rows: nat, cols: nat, s: Coord, e: Coord,
                               path: Option<seq<Coord>>, trace: seq<Coord>)
    requires WellShaped(g, rows, cols)
  {
    // the trace starts at the start cell, never repeats a cell, stays on the
    // board (so it is no longer than the board) and holds only reachable cells
    |trace| > 0 && trace[0] == s && Distinct(trace) &&
    (forall x :: x in trace ==> InBounds(rows, cols, x)) &&
    |trace| <= rows * cols &&
    (forall x :: x in trace ==> Reachable(g, rows, cols, s, x)) &&
    // a path comes back exactly when the end cell is reachable
    (path.Some? <==> Reachable(g, rows, cols, s, e)) &&
    // it then runs from start to end by single moves, never revisits a cell,
    // passes only through traced cells, and the end cell closes the trace
    (path.Some? ==>
       IsPath(g, rows, cols, path.value, s, e) && Distinct(path.value) &&
       (forall x :: x in path.value ==> x in trace) &&
       trace[|trace| - 1] == e) &&
    // otherwise the trace is exactly the set of cells reachable from start
    (path.None? ==> forall x :: x in trace <==> Reachable(g, rows, cols, s, x))
  }

  /** Every cell of a parent tree is reachable from its root. */
  lemma {:induction false} TreeReachable(g: seq<seq<int>>, rows: int, cols: int, s: Coord,
                                         parent: map<Coord, Option<Coord>>, depth: map<Coord, nat>,
                                         k: Coord)
    requires WellShaped(g, rows, cols)
    requires ParentTree(g, rows, cols, s, parent, depth)
    requires k in parent
    ensures Reachable(g, rows, cols, s, k)
    decreases depth[k]
  {
    if parent[k].None? {
      assert IsPath(g, rows, cols, [s], s, s);
    } else {
      var p := parent[k].value;
      assert ParentOf(parent, p, k);
      TreeReachable(g, rows, cols, s, parent, depth, p);
      var w :| IsPath(g, rows, cols, w, s, p);
      ExtendPath(g, rows, cols, w, s, p, k);
    }
  }

  /** Along a chain of parent links starting at the root, the i-th cell sits
      at depth i; so such a chain never repeats a cell. */
  lemma {:induction false} ChainDepths(g: seq<seq<int>>, rows: int, cols: int, s: Coord,
                                       parent: map<Coord, Option<Coord>>, depth: map<Coord, nat>,
                                       path: seq<Coord>, i: nat)
    requires WellShaped(g, rows, cols)
    requires ParentTree(g, rows, cols, s, parent, depth)
    requires |path| > 0 && path[0] == s
    requires forall j :: 0 <= j < |path| - 1 ==> ParentOf(parent, path[j], path[j + 1])
    requires i < |path|
    ensures path[i] in depth && depth[path[i]] == i
  {
    if i > 0 {
      ChainDepths(g, rows, cols, s, parent, depth, path, i - 1);
      assert ParentOf(parent, path[i - 1], path[i]);
    }
  }

  /** The level argument behind breadth-first search.  Suppose every cell of
      `done` has had all its open neighbours discovered at most one level
      deeper, and every cell still waiting in `pending` sits at depth `level`
      or more.  Then a walk from s reaches its i-th cell (i <= level) only at
      a cell already discovered at depth at most i. */
  lemma {:induction false} LevelBound(g: seq<seq<int>>, rows: int, cols: int, s: Coord,
                                      done: seq<Coord>, pending: seq<Coord>,
                                      depth: map<Coord, nat>, level: int,
                                      w: seq<Coord>, i: nat)
    requires WellShaped(g, rows, cols)
    requires s in depth && depth[s] == 0
    requires forall v :: v in depth <==> v in done || v in pending
    requires forall t, q :: t in done && Step(g, rows, cols, t, q) ==>
               q in depth && depth[q] <= depth[t] + 1
    requires forall v :: v in pending ==> v in depth && level <= depth[v]
    requires |w| > 0 && w[0] == s && IsWalk(g, rows, cols, w)
    requires i < |w| && i <= level
    ensures w[i] in depth && depth[w[i]] <= i
  {
    if i > 0 {
      LevelBound(g, rows, cols, s, done, pending, depth, level, w, i - 1);
      assert w[i - 1] !in pending;
      assert Step(g, rows, cols, w[i - 1], w[i]);
    }
  }

  /** A breadth-first search that dequeues the end cell e returns a path
      no longer than any walk from s to e, as well as the common outcome. */
  lemma BfsFound(g: seq<seq<int>>, rows: nat, cols: nat, s: Coord, e: Coord,
                 trace: seq<Coord>, queue: seq<Coord>, visited: set<Coord>,
                 parent: map<Coord, Option<Coord>>, depth: map<Coord, nat>, level: nat,
                 path: seq<Coord>)
    requires WellShaped(g, rows, cols)
    requires BfsInvariant(g, rows, cols, s, e, trace, queue, visited, parent, depth, level)
    requires queue != [] && queue[0] == e
    requires IsPath(g, rows, cols, path, s, e) && |path| == depth[e] + 1
    requires forall i :: 0 <= i < |path| - 1 ==> ParentOf(parent, path[i], path[i + 1])
    ensures SearchResult(g, rows, cols, s, e, Some(path), trace + [e])
    ensures Shortest(g, rows, cols, s, e, path)
  {
    BfsTake(g, rows, cols, s, e, trace, queue, visited, parent, depth, level);
    FoundOutcome(g, rows, cols, s, e, trace + [e], queue[1..], visited, parent, depth, path);
    forall w | IsPath(g, rows, cols, w, s, e)
      ensures |path| <= |w|
    {
      if |w| - 1 <= level {
        LevelBound(g, rows, cols, s, trace, queue, depth, level, w, |w| - 1);
      }
    }
  }

  /** A depth-first search that pops the end cell e. */
  lemma DfsFound(g: seq<seq<int>>, rows: nat, cols: nat, s: Coord, e: Coord,
                 trace: seq<Coord>, stack: seq<Coord>, visited: set<Coord>,
                 parent: map<Coord, Option<Coord>>, depth: map<Coord, nat>, path: seq<Coord>)
    requires WellShaped(g, rows, cols)
    requires DfsInvariant(g, rows, cols, s, e, trace, stack, visited, parent, depth)
    requires stack != [] && stack[|stack| - 1] == e
    requires IsPath(g, rows, cols, path, s, e)
    requires forall i :: 0 <= i < |path| - 1 ==> ParentOf(parent, path[i], path[i + 1])
    ensures SearchResult(g, rows, cols, s, e, Some(path), trace + [e])
  {
    DfsTake(g, rows, cols, s, e, trace, stack, visited, parent, depth);
    FoundOutcome(g, rows, cols, s, e, trace + [e], stack[..|stack| - 1], visited, parent, depth, path);
  }

  /** A breadth-first search whose queue runs dry. */
  lemma BfsExhausted(g: seq<seq<int>>, rows: nat, cols: nat, s: Coord, e: Coord,
                     trace: seq<Coord>, visited: set<Coord>,
                     parent: map<Coord, Option<Coord>>, depth: map<Coord, nat>, level: nat)
    requires WellShaped(g, rows, cols)
    requires BfsInvariant(g, rows, cols, s, e, trace, [], visited, parent, depth, level)
    ensures SearchResult(g, rows, cols, s, e, None, trace)
  {
    ExpandedFromLevels(g, rows, cols, trace, depth, visited);
    ExhaustedOutcome(g, rows, cols, s, e, trace, visited, parent, depth);
  }

  /** A depth-first search whose stack runs dry. */
  lemma DfsExhausted(g: seq<seq<int>>, rows: nat, cols: nat, s: Coord, e: Coord,
                     trace: seq<Coord>, visited: set<Coord>,
                     parent: map<Coord, Option<Coord>>, depth: map<Coord, nat>)
    requires WellShaped(g, rows, cols)
    requires DfsInvariant(g, rows, cols, s, e, trace, [], visited, parent, depth)
    ensures SearchResult(g, rows, cols, s, e, None, trace)
  {
    ExhaustedOutcome(g, rows, cols, s, e, trace, visited, parent, depth);
  }

  /** The cells a search has taken off its frontier, all of them parent-tree
      cells on the board without repetition, are reachable, on the board, and
      at most rows * cols in number. */
  lemma TraceFacts(g: seq<seq<int>>, rows: nat, cols: nat, s: Coord,
                   parent: map<Coord, Option<Coord>>, depth: map<Coord, nat>, trace: seq<Coord>)
    requires WellShaped(g, rows, cols)
    requires ParentTree(g, rows, cols, s, parent, depth)
    requires parent.Keys <= AllCells(rows, cols)
    requires forall x :: x in trace ==> x in parent
    requires Distinct(trace)
    ensures forall x :: x in trace ==> InBounds(rows, cols, x) && Reachable(g, rows, cols, s, x)
    ensures |trace| <= rows * cols
  {
    forall x | x in trace
      ensures InBounds(rows, cols, x) && Reachable(g, rows, cols, s, x)
    {
      AllCellsMembers(rows, cols, x);
      TreeReachable(g, rows, cols, s, parent, depth, x);
    }
    DistinctOnBoard(trace, rows, cols);
  }

  /** When the frontier runs dry, every traced cell has had its open
      neighbours discovered, so the trace is closed under Step and holds
      exactly the cells reachable from the start. */
  lemma ExhaustedFacts(g: seq<seq<int>>, rows: int, cols: int, s: Coord,
                       parent: map<Coord, Option<Coord>>, depth: map<Coord, nat>, trace: seq<Coord>)
    requires WellShaped(g, rows, cols)
    requires ParentTree(g, rows, cols, s, parent, depth)
    requires forall x :: x in parent <==> x in trace
    requires forall t, q :: t in trace && Step(g, rows, cols, t, q) ==> q in parent
    ensures forall x :: x in trace <==> Reachable(g, rows, cols, s, x)
  {
    forall x | Reachable(g, rows, cols, s, x)
      ensures x in trace
    {
      var w :| IsPath(g, rows, cols, w, s, x);
      ClosedSetHoldsWalk(g, rows, cols, parent.Keys, w, |w| - 1);
    }
    forall x | x in trace
      ensures Reachable(g, rows, cols, s, x)
    {
      TreeReachable(g, rows, cols, s, parent, depth, x);
    }
  }

  /** The outcome of a search that took the end cell off its frontier and
      rebuilt `path` from the parent links. */
  lemma FoundOutcome(g: seq<seq<int>>, rows: nat, cols: nat, s: Coord, e: Coord,
                     trace: seq<Coord>, frontier: seq<Coord>, visited: set<Coord>,
                     parent: map<Coord, Option<Coord>>, depth: map<Coord, nat>, path: seq<Coord>)
    requires WellShaped(g, rows, cols)
    requires SearchTree(g, rows, cols, s, trace, frontier, visited, parent, depth)
    requires |trace| > 0 && trace[0] == s && trace[|trace| - 1] == e
    requires IsPath(g, rows, cols, path, s, e)
    requires forall i :: 0 <= i < |path| - 1 ==> ParentOf(parent, path[i], path[i + 1])
    ensures SearchResult(g, rows, cols, s, e, Some(path), trace)
  {
    TraceFacts(g, rows, cols, s, parent, depth, trace);
    forall i, j | 0 <= i < j < |path|
      ensures path[i] != path[j]
    {
      ChainDepths(g, rows, cols, s, parent, depth, path, i);
      ChainDepths(g, rows, cols, s, parent, depth, path, j);
    }
    forall x | x in path
      ensures x in trace
    {
      var i :| 0 <= i < |path| && path[i] == x;
      if i < |path| - 1 {
        assert ParentOf(parent, path[i], path[i + 1]);
      }
    }
  }

  /** The outcome of a search whose frontier ran dry without meeting the end
      cell. */
  lemma ExhaustedOutcome(g: seq<seq<int>>, rows: nat, cols: nat, s: Coord, e: Coord,
                         trace: seq<Coord>, visited: set<Coord>,
                         parent: map<Coord, Option<Coord>>, depth: map<Coord, nat>)
    requires WellShaped(g, rows, cols)
    requires SearchTree(g, rows, cols, s, trace, [], visited, parent, depth)
    requires Expanded(g, rows, cols, trace, visited)
    requires |trace| > 0 && trace[0] == s && e !in trace
    ensures SearchResult(g, rows, cols, s, e, None, trace)
  {
    TraceFacts(g, rows, cols, s, parent, depth, trace);
    ExhaustedFacts(g, rows, cols, s, parent, depth, trace);
  }

  // ---------------------------------------------------------------------
  // Loop invariants of the two searches, and how each step keeps them

  /** The frontier bookkeeping: the visited set is the trace plus the
      frontier, no cell is in either twice or in both, every visited cell is
      on the board and has a parent entry and a depth. */
  ghost predicate Bookkeeping(rows: int, cols: int, trace: seq<Coord>, frontier: seq<Coord>,
                              visited: set<Coord>, parent: map<Coord, Option<Coord>>,
                              depth: map<Coord, nat>)
  {
    (forall x :: x in visited <==> x in trace || x in frontier) &&
    Distinct(trace) && Distinct(frontier) && (forall x :: x in trace ==> x !in frontier) &&
    visited <= AllCells(rows, cols) && parent.Keys == visited && depth.Keys == visited
  }

  /** Every recorded parent has already been taken off the frontier. */
  ghost predicate ParentsTraced(parent: map<Coord, Option<Coord>>, trace: seq<Coord>) {
    forall p, k :: ParentOf(parent, p, k) ==> p in trace
  }

  /** The state a search keeps between steps: its frontier bookkeeping and a
      parent tree rooted at s whose inner cells have all been traced. */
  ghost predicate SearchTree(g: seq<seq<int>>, rows: int, cols: int, s: Coord,
                             trace: seq<Coord>, frontier: seq<Coord>, visited: set<Coord>,
                             parent: map<Coord, Option<Coord>>, depth: map<Coord, nat>)
    requires WellShaped(g, rows, cols)
  {
    Bookkeeping(rows, cols, trace, frontier, visited, parent, depth) &&
    ParentTree(g, rows, cols, s, parent, depth) && ParentsTraced(parent, trace)
  }

  /** The loop invariant of depth-first search: its search tree, a trace
      that starts at s and has not yet met e, and every traced cell expanded. */
  ghost predicate DfsInvariant(g: seq<seq<int>>, rows: int, cols: int, s: Coord, e: Coord,
                               trace: seq<Coord>, stack: seq<Coord>, visited: set<Coord>,
                               parent: map<Coord, Option<Coord>>, depth: map<Coord, nat>)
    requires WellShaped(g, rows, cols)
  {
    SearchTree(g, rows, cols, s, trace, stack, visited, parent, depth) &&
    (trace == [] ==> stack == [s]) && (trace != [] ==> trace[0] == s) && e !in trace &&
    Expanded(g, rows, cols, trace, visited)
  }

  lemma DfsTake(g: seq<seq<int>>, rows: int, cols: int, s: Coord, e: Coord,
                trace: seq<Coord>, stack: seq<Coord>, visited: set<Coord>,
                parent: map<Coord, Option<Coord>>, depth: map<Coord, nat>)
    requires WellShaped(g, rows, cols)
    requires DfsInvariant(g, rows, cols, s, e, trace, stack, visited, parent, depth) && stack != []
    ensures SearchTree(g, rows, cols, s, trace + [stack[|stack| - 1]], stack[..|stack| - 1], visited, parent, depth)
    ensures (trace + [stack[|stack| - 1]])[0] == s
  {
    TakeFrom(g, rows, cols, s, trace, stack, |stack| - 1, stack[..|stack| - 1], visited, parent, depth);
  }

  /** After popping `current` (not the end cell) and looking at all its
      open neighbours, the depth-first invariant holds again, and either a
      new cell was visited or the stack shrank. */
  lemma DfsResume(g: seq<seq<int>>, rows: int, cols: int, s: Coord, e: Coord,
                  trace: seq<Coord>, stack: seq<Coord>, visited: set<Coord>,
                  parent: map<Coord, Option<Coord>>, depth: map<Coord, nat>,
                  current: Coord, neighbors: seq<Coord>,
                  stack': seq<Coord>, visited': set<Coord>,
                  parent': map<Coord, Option<Coord>>, depth': map<Coord, nat>)
    requires WellShaped(g, rows, cols)
    requires DfsInvariant(g, rows, cols, s, e, trace, stack, visited, parent, depth)
    requires stack != [] && current == stack[|stack| - 1] && current != e
    requires NeighborLoop(g, rows, cols, s, trace + [current], current, neighbors, |neighbors|,
                          stack[..|stack| - 1], visited, depth, stack', visited', parent', depth')
    requires forall q :: Step(g, rows, cols, current, q) ==> q in neighbors
    ensures DfsInvariant(g, rows, cols, s, e, trace + [current], stack', visited', parent', depth')
    ensures AllCells(rows, cols) - visited' <= AllCells(rows, cols) - visited
    ensures AllCells(rows, cols) - visited' == AllCells(rows, cols) - visited ==> |stack'| < |stack|
  {
    assert neighbors[..|neighbors|] == neighbors;
    assert visited <= visited';
    ExpandCurrent(g, rows, cols, trace, current, neighbors, visited');
    UnvisitedShrinks(rows, cols, visited, visited');
  }

  /** The loop invariant of breadth-first search: as for depth-first search,
      with the expansion and queue facts kept level by level. */
  ghost predicate BfsInvariant(g: seq<seq<int>>, rows: int, cols: int, s: Coord, e: Coord,
                               trace: seq<Coord>, queue: seq<Coord>, visited: set<Coord>,
                               parent: map<Coord, Option<Coord>>, depth: map<Coord, nat>, level: nat)
    requires WellShaped(g, rows, cols)
  {
    SearchTree(g, rows, cols, s, trace, queue, visited, parent, depth) &&
    (trace == [] ==> queue == [s]) && (trace != [] ==> trace[0] == s) && e !in trace &&
    ExpandedByLevel(g, rows, cols, trace, depth) && Levels(trace, queue, depth, level)
  }

  lemma BfsTake(g: seq<seq<int>>, rows: int, cols: int, s: Coord, e: Coord,
                trace: seq<Coord>, queue: seq<Coord>, visited: set<Coord>,
                parent: map<Coord, Option<Coord>>, depth: map<Coord, nat>, level: nat)
    requires WellShaped(g, rows, cols)
    requires BfsInvariant(g, rows, cols, s, e, trace, queue, visited, parent, depth, level) && queue != []
    ensures SearchTree(g, rows, cols, s, trace + [queue[0]], queue[1..], visited, parent, depth)
    ensures (trace + [queue[0]])[0] == s
    ensures Levels(trace + [queue[0]], queue[1..], depth, depth[queue[0]])
  {
    TakeFrom(g, rows, cols, s, trace, queue, 0, queue[1..], visited, parent, depth);
    Dequeue(trace, queue, depth, level);
  }

  /** After dequeuing `current` (not the end cell) and looking at all its
      open neighbours, the breadth-first invariant holds again at the level
      of `current`, and either a new cell was visited or the queue shrank. */
  lemma BfsResume(g: seq<seq<int>>, rows: int, cols: int, s: Coord, e: Coord,
                  trace: seq<Coord>, queue: seq<Coord>, visited: set<Coord>,
                  parent: map<Coord, Option<Coord>>, depth: map<Coord, nat>, level: nat,
                  current: Coord, neighbors: seq<Coord>,
                  queue': seq<Coord>, visited': set<Coord>,
                  parent': map<Coord, Option<Coord>>, depth': map<Coord, nat>)
    requires WellShaped(g, rows, cols)
    requires BfsInvariant(g, rows, cols, s, e, trace, queue, visited, parent, depth, level)
    requires queue != [] && current == queue[0] && current != e
    requires NeighborLoop(g, rows, cols, s, trace + [current], current, neighbors, |neighbors|,
                          queue[1..], visited, depth, queue', visited', parent', depth')
    requires NeighborLevels(trace + [current], current, neighbors, |neighbors|,
                            queue[1..], depth, depth[current], queue', depth')
    requires forall q :: Step(g, rows, cols, current, q) ==> q in neighbors
    ensures BfsInvariant(g, rows, cols, s, e, trace + [current], queue', visited', parent', depth', depth[current])
    ensures AllCells(rows, cols) - visited' <= AllCells(rows, cols) - visited
    ensures AllCells(rows, cols) - visited' == AllCells(rows, cols) - visited ==> |queue'| < |queue|
  {
    assert neighbors[..|neighbors|] == neighbors;
    assert visited <= visited';
    Dequeue(trace, queue, depth, level);
    ExpandedByLevelGrows(g, rows, cols, trace, depth, depth');
    ExpandCurrentByLevel(g, rows, cols, trace, current, neighbors, depth');
    UnvisitedShrinks(rows, cols, visited, visited');
  }

  /** Every cell of `done` has had all its open neighbours discovered. */
  ghost predicate Expanded(g: seq<seq<int>>, rows: int, cols: int, done: seq<Coord>, visited: set<Coord>)
    requires WellShaped(g, rows, cols)
  {
    forall t, q :: t in done && Step(g, rows, cols, t, q) ==> q in visited
  }

  /** Breadth-first form of Expanded: the neighbours were discovered at most
      one level deeper. */
  ghost predicate ExpandedByLevel(g: seq<seq<int>>, rows: int, cols: int, done: seq<Coord>,
                                  depth: map<Coord, nat>)
    requires WellShaped(g, rows, cols)
  {
    forall t, q :: t in done && Step(g, rows, cols, t, q) ==>
      t in depth && q in depth && depth[q] <= depth[t] + 1
  }

  /** Breadth-first queue discipline: the traced cells lie at most at depth
      `level`, the queued ones at `level` or `level + 1`, in ascending order. */
  ghost predicate Levels(trace: seq<Coord>, queue: seq<Coord>, depth: map<Coord, nat>, level: nat) {
    (forall t :: t in trace ==> t in depth && depth[t] <= level) &&
    (forall i :: 0 <= i < |queue| ==> queue[i] in depth && level <= depth[queue[i]] <= level + 1) &&
    (forall i, j :: 0 <= i < j < |queue| ==> depth[queue[i]] <= depth[queue[j]])
  }

  /** Both searches start with only s visited, on the frontier. */
  lemma InitialState(g: seq<seq<int>>, rows: int, cols: int, s: Coord, e: Coord)
    requires WellShaped(g, rows, cols) && InBounds(rows, cols, s)
    ensures BfsInvariant(g, rows, cols, s, e, [], [s], {s}, map[s := None], map[s := 0], 0)
    ensures DfsInvariant(g, rows, cols, s, e, [], [s], {s}, map[s := None], map[s := 0])
  {
    AllCellsMembers(rows, cols, s);
  }

  /** Taking the head of a queue, or the top of a stack, onto the trace. */
  lemma TakeFrom(g: seq<seq<int>>, rows: int, cols: int, s: Coord,
                 trace: seq<Coord>, frontier: seq<Coord>, i: nat, rest: seq<Coord>,
                 visited: set<Coord>, parent: map<Coord, Option<Coord>>, depth: map<Coord, nat>)
    requires WellShaped(g, rows, cols)
    requires SearchTree(g, rows, cols, s, trace, frontier, visited, parent, depth)
    requires i < |frontier| && (i == 0 || i == |frontier| - 1)
    requires rest == if i == 0 then frontier[1..] else frontier[..i]
    ensures SearchTree(g, rows, cols, s, trace + [frontier[i]], rest, visited, parent, depth)
  {
    TakeKeepsBookkeeping(rows, cols, trace, frontier, i, rest, visited, parent, depth);
    forall p, k | ParentOf(parent, p, k)
      ensures p in trace + [frontier[i]]
    {
      assert p in trace;
    }
  }

  /** The frontier bookkeeping survives moving one frontier end onto the
      trace. */
  lemma TakeKeepsBookkeeping(rows: int, cols: int, trace: seq<Coord>, frontier: seq<Coord>, i: nat,
                             rest: seq<Coord>, visited: set<Coord>, parent: map<Coord, Option<Coord>>,
                             depth: map<Coord, nat>)
    requires Bookkeeping(rows, cols, trace, frontier, visited, parent, depth)
    requires i < |frontier| && (i == 0 || i == |frontier| - 1)
    requires rest == if i == 0 then frontier[1..] else frontier[..i]
    ensures Bookkeeping(rows, cols, trace + [frontier[i]], rest, visited, parent, depth)
  {
    var x := frontier[i];
    assert forall y :: y in frontier <==> y == x || y in rest;
    DistinctSnoc(trace, x);
    assert x !in rest;
  }

  /** Discovering `next` from `current`: it joins the frontier, the visited
      set, the parent links and the depth map. */
  lemma Discover(g: seq<seq<int>>, rows: int, cols: int, s: Coord,
                 trace: seq<Coord>, frontier: seq<Coord>, visited: set<Coord>,
                 parent: map<Coord, Option<Coord>>, depth: map<Coord, nat>,
                 current: Coord, next: Coord)
    requires WellShaped(g, rows, cols)
    requires SearchTree(g, rows, cols, s, trace, frontier, visited, parent, depth)
    requires current in trace && Step(g, rows, cols, current, next) && next !in visited
    ensures SearchTree(g, rows, cols, s, trace, frontier + [next], visited + {next},
                       parent[next := Some(current)], depth[next := depth[current] + 1])
  {
    AllCellsMembers(rows, cols, next);
    DistinctSnoc(frontier, next);
    var parent', depth' := parent[next := Some(current)], depth[next := depth[current] + 1];
    forall p, k | ParentOf(parent', p, k)
      ensures p in parent' && p in depth' && depth'[k] == depth'[p] + 1 && Step(g, rows, cols, p, k)
      ensures p in trace
    {
      if k != next {
        assert ParentOf(parent, p, k);
      }
    }
  }

  /** The neighbours a pass over `ns` discovers when `seen` is already
      visited: in the order of `ns`, those not yet visited, each once. */
  function FreshNeighbors(ns: seq<Coord>, seen: set<Coord>): (r: seq<Coord>)
    ensures forall x :: x in r <==> x in ns && x !in seen
    ensures Distinct(r)
  {
    if ns == [] then []
    else
      var init, x := ns[..|ns| - 1], ns[|ns| - 1];
      FreshNeighbors(init, seen) + if x in seen || x in init then [] else [x]
  }

  /** One more neighbour looked at: it is fresh exactly when it is not yet
      visited, given that the visited set has grown by the earlier ones. */
  lemma FreshStep(ns: seq<Coord>, k: nat, seen: set<Coord>, visited: set<Coord>)
    requires k < |ns|
    requires forall x :: x in visited <==> x in seen || x in ns[..k]
    ensures FreshNeighbors(ns[..k + 1], seen) ==
              FreshNeighbors(ns[..k], seen) + if ns[k] in visited then [] else [ns[k]]
  {
    assert ns[..k + 1][..k] == ns[..k];
  }

  /** What the loop over the neighbours of `current` has done once the first
      k of them have been looked at, against the state (frontier, visited,
      parent) before it: the fresh ones were appended to the frontier in
      order and given `current` as parent, and older parent links stayed. */
  predicate NewlyDiscovered(current: Coord, neighbors: seq<Coord>, k: nat,
                            frontier: seq<Coord>, visited: set<Coord>, parent: map<Coord, Option<Coord>>,
                            frontier': seq<Coord>, parent': map<Coord, Option<Coord>>)
  {
    k <= |neighbors| &&
    frontier' == frontier + FreshNeighbors(neighbors[..k], visited) &&
    (forall x :: x in parent ==> x in parent' && parent'[x] == parent[x]) &&
    (forall x :: x in neighbors[..k] && x !in visited ==> x in parent' && parent'[x] == Some(current))
  }

  /** Looking at an unvisited k-th neighbour appends it and gives it its
      parent link. */
  lemma DiscoveredNew(current: Coord, neighbors: seq<Coord>, k: nat,
                      frontier: seq<Coord>, visited: set<Coord>, parent: map<Coord, Option<Coord>>,
                      frontier': seq<Coord>, visited': set<Coord>, parent': map<Coord, Option<Coord>>)
    requires NewlyDiscovered(current, neighbors, k, frontier, visited, parent, frontier', parent')
    requires k < |neighbors| && parent.Keys == visited
    requires forall x :: x in visited' <==> x in visited || x in neighbors[..k]
    requires neighbors[k] !in visited'
    ensures NewlyDiscovered(current, neighbors, k + 1, frontier, visited, parent,
                            frontier' + [neighbors[k]], parent'[neighbors[k] := Some(current)])
  {
    var next := neighbors[k];
    FreshStep(neighbors, k, visited, visited');
    assert frontier' + [next] == frontier + FreshNeighbors(neighbors[..k + 1], visited);
    var parent'' := parent'[next := Some(current)];
    assert next !in parent;
    forall x | x in neighbors[..k + 1] && x !in visited
      ensures x in parent'' && parent''[x] == Some(current)
    {
      if x != next {
        assert x in neighbors[..k];
      }
    }
  }

  /** Looking at an already visited k-th neighbour changes nothing. */
  lemma DiscoveredSeen(current: Coord, neighbors: seq<Coord>, k: nat,
                       frontier: seq<Coord>, visited: set<Coord>, parent: map<Coord, Option<Coord>>,
                       frontier': seq<Coord>, visited': set<Coord>, parent': map<Coord, Option<Coord>>)
    requires NewlyDiscovered(current, neighbors, k, frontier, visited, parent, frontier', parent')
    requires k < |neighbors|
    requires forall x :: x in visited' <==> x in visited || x in neighbors[..k]
    requires neighbors[k] in visited'
    ensures NewlyDiscovered(current, neighbors, k + 1, frontier, visited, parent, frontier', parent')
  {
    FreshStep(neighbors, k, visited, visited');
    forall x | x in neighbors[..k + 1] && x !in visited
      ensures x in parent' && parent'[x] == Some(current)
    {
      assert x in neighbors[..k];
    }
  }

  /** The invariant of the loop over the neighbours of `current` once the
      first k of them have been looked at: (frontier, visited, depth) is the
      state before the loop, (frontier', visited', parent', depth') the state
      now.  Exactly the neighbours looked at have joined the visited set, the
      frontier only grew if the visited set did, and old depths are kept. */
  ghost predicate NeighborLoop(g: seq<seq<int>>, rows: int, cols: int, s: Coord, trace: seq<Coord>,
                               current: Coord, neighbors: seq<Coord>, k: nat,
                               frontier: seq<Coord>, visited: set<Coord>, depth: map<Coord, nat>,
                               frontier': seq<Coord>, visited': set<Coord>,
                               parent': map<Coord, Option<Coord>>, depth': map<Coord, nat>)
    requires WellShaped(g, rows, cols)
  {
    k <= |neighbors| && current in trace && current in depth &&
    SearchTree(g, rows, cols, s, trace, frontier', visited', parent', depth') &&
    (forall x :: x in visited' <==> x in visited || x in neighbors[..k]) &&
    (visited' == visited ==> frontier' == frontier) &&
    (forall x :: x in depth ==> x in depth' && depth'[x] == depth[x])
  }

  /** The breadth-first part of that invariant: if the frontier was a queue
      obeying the level discipline with `current` at `level`, it still is,
      and the neighbours looked at sit at most one level deeper. */
  ghost predicate NeighborLevels(trace: seq<Coord>, current: Coord, neighbors: seq<Coord>, k: nat,
                                 frontier: seq<Coord>, depth: map<Coord, nat>, level: nat,
                                 frontier': seq<Coord>, depth': map<Coord, nat>)
    requires k <= |neighbors|
  {
    Levels(trace, frontier, depth, level) && current in depth && level == depth[current] ==>
      Levels(trace, frontier', depth', level) &&
      forall j :: 0 <= j < k ==> neighbors[j] in depth' && depth'[neighbors[j]] <= level + 1
  }

  /** Discovering the k-th neighbour keeps the loop invariant. */
  lemma NeighborNew(g: seq<seq<int>>, rows: int, cols: int, s: Coord, trace: seq<Coord>,
                    current: Coord, neighbors: seq<Coord>, k: nat,
                    frontier: seq<Coord>, visited: set<Coord>, depth: map<Coord, nat>,
                    frontier': seq<Coord>, visited': set<Coord>,
                    parent': map<Coord, Option<Coord>>, depth': map<Coord, nat>)
    requires WellShaped(g, rows, cols)
    requires NeighborLoop(g, rows, cols, s, trace, current, neighbors, k, frontier, visited, depth,
                          frontier', visited', parent', depth')
    requires k < |neighbors| && Step(g, rows, cols, current, neighbors[k]) && neighbors[k] !in visited'
    ensures NeighborLoop(g, rows, cols, s, trace, current, neighbors, k + 1, frontier, visited, depth,
                         frontier' + [neighbors[k]], visited' + {neighbors[k]},
                         parent'[neighbors[k] := Some(current)], depth'[neighbors[k] := depth'[current] + 1])
  {
    assert neighbors[..k + 1] == neighbors[..k] + [neighbors[k]];
    Discover(g, rows, cols, s, trace, frontier', visited', parent', depth', current, neighbors[k]);
  }

  /** Skipping an already visited k-th neighbour keeps the loop invariant. */
  lemma NeighborSeen(g: seq<seq<int>>, rows: int, cols: int, s: Coord, trace: seq<Coord>,
                     current: Coord, neighbors: seq<Coord>, k: nat,
                     frontier: seq<Coord>, visited: set<Coord>, depth: map<Coord, nat>,
                     frontier': seq<Coord>, visited': set<Coord>,
                     parent': map<Coord, Option<Coord>>, depth': map<Coord, nat>)
    requires WellShaped(g, rows, cols)
    requires NeighborLoop(g, rows, cols, s, trace, current, neighbors, k, frontier, visited, depth,
                          frontier', visited', parent', depth')
    requires k < |neighbors| && neighbors[k] in visited'
    ensures NeighborLoop(g, rows, cols, s, trace, current, neighbors, k + 1, frontier, visited, depth,
                         frontier', visited', parent', depth')
  {
    assert neighbors[..k + 1] == neighbors[..k] + [neighbors[k]];
  }

  /** Enqueuing the k-th neighbour one level below `current`. */
  lemma LevelsNew(trace: seq<Coord>, current: Coord, neighbors: seq<Coord>, k: nat,
                  frontier: seq<Coord>, depth: map<Coord, nat>, level: nat,
                  frontier': seq<Coord>, depth': map<Coord, nat>)
    requires k < |neighbors| && neighbors[k] !in depth'
    requires current in depth && current in depth' && depth'[current] == depth[current]
    requires NeighborLevels(trace, current, neighbors, k, frontier, depth, level, frontier', depth')
    ensures NeighborLevels(trace, current, neighbors, k + 1, frontier, depth, level,
                           frontier' + [neighbors[k]], depth'[neighbors[k] := depth'[current] + 1])
  {
    if Levels(trace, frontier, depth, level) && level == depth[current] {
      Enqueue(trace, frontier', depth', level, neighbors[k]);
    }
  }

  /** An already visited k-th neighbour is at most one level below `current`. */
  lemma LevelsSeen(trace: seq<Coord>, current: Coord, neighbors: seq<Coord>, k: nat,
                   frontier: seq<Coord>, depth: map<Coord, nat>, level: nat,
                   frontier': seq<Coord>, depth': map<Coord, nat>)
    requires k < |neighbors| && (neighbors[k] in trace || neighbors[k] in frontier')
    requires NeighborLevels(trace, current, neighbors, k, frontier, depth, level, frontier', depth')
    ensures NeighborLevels(trace, current, neighbors, k + 1, frontier, depth, level, frontier', depth')
  {
    if Levels(trace, frontier, depth, level) && current in depth && level == depth[current] {
      LevelOfVisited(trace, frontier', depth', level, neighbors[k]);
    }
  }

  /** Once every neighbour of `current` has been looked at, `current` is
      expanded too. */
  lemma ExpandCurrent(g: seq<seq<int>>, rows: int, cols: int, done: seq<Coord>, current: Coord,
                      neighbors: seq<Coord>, visited: set<Coord>)
    requires WellShaped(g, rows, cols)
    requires Expanded(g, rows, cols, done, visited)
    requires forall q :: Step(g, rows, cols, current, q) ==> q in neighbors
    requires forall j :: 0 <= j < |neighbors| ==> neighbors[j] in visited
    ensures Expanded(g, rows, cols, done + [current], visited)
  {
  }

  /** Breadth-first form of ExpandCurrent. */
  lemma ExpandCurrentByLevel(g: seq<seq<int>>, rows: int, cols: int, done: seq<Coord>, current: Coord,
                             neighbors: seq<Coord>, depth: map<Coord, nat>)
    requires WellShaped(g, rows, cols)
    requires ExpandedByLevel(g, rows, cols, done, depth) && current in depth
    requires forall q :: Step(g, rows, cols, current, q) ==> q in neighbors
    requires forall j :: 0 <= j < |neighbors| ==>
               neighbors[j] in depth && depth[neighbors[j]] <= depth[current] + 1
    ensures ExpandedByLevel(g, rows, cols, done + [current], depth)
  {
  }

  /** New cells in the depth map leave the facts about the old ones alone. */
  lemma ExpandedByLevelGrows(g: seq<seq<int>>, rows: int, cols: int, done: seq<Coord>,
                             depth: map<Coord, nat>, depth': map<Coord, nat>)
    requires WellShaped(g, rows, cols)
    requires ExpandedByLevel(g, rows, cols, done, depth)
    requires forall x :: x in depth ==> x in depth' && depth'[x] == depth[x]
    ensures ExpandedByLevel(g, rows, cols, done, depth')
  {
  }

  /** A search that marked a new cell visited has fewer unvisited cells left;
      one that did not leaves the unvisited cells as they were. */
  lemma UnvisitedShrinks(rows: int, cols: int, before: set<Coord>, after: set<Coord>)
    requires before <= after <= AllCells(rows, cols)
    ensures AllCells(rows, cols) - after <= AllCells(rows, cols) - before
    ensures after != before ==> AllCells(rows, cols) - after != AllCells(rows, cols) - before
  {
    if after != before {
      var x :| x in after && x !in before;
      assert x in AllCells(rows, cols) - before;
    }
  }

  /** Dequeuing the head of the queue raises the level to its depth. */
  lemma Dequeue(trace: seq<Coord>, queue: seq<Coord>, depth: map<Coord, nat>, level: nat)
    requires Levels(trace, queue, depth, level) && queue != []
    ensures Levels(trace + [queue[0]], queue[1..], depth, depth[queue[0]])
  {
  }

  /** Enqueuing a new cell one level below the current one. */
  lemma Enqueue(trace: seq<Coord>, queue: seq<Coord>, depth: map<Coord, nat>, level: nat, next: Coord)
    requires Levels(trace, queue, depth, level) && next !in depth
    ensures Levels(trace, queue + [next], depth[next := level + 1], level)
  {
  }

  /** The breadth-first invariants give the plain closure property. */
  lemma ExpandedFromLevels(g: seq<seq<int>>, rows: int, cols: int, done: seq<Coord>,
                           depth: map<Coord, nat>, visited: set<Coord>)
    requires WellShaped(g, rows, cols)
    requires ExpandedByLevel(g, rows, cols, done, depth) && depth.Keys == visited
    ensures Expanded(g, rows, cols, done, visited)
  {
  }

  /** Under the queue discipline a discovered cell is at most one level
      below the current one. */
  lemma LevelOfVisited(trace: seq<Coord>, queue: seq<Coord>, depth: map<Coord, nat>, level: nat, x: Coord)
    requires Levels(trace, queue, depth, level) && (x in trace || x in queue)
    ensures x in depth && depth[x] <= level + 1
  {
    if x !in trace {
      var i :| 0 <= i < |queue| && queue[i] == x;
    }
  }
}
