/** Values shared by the grid and its searches: coordinates, cell codes,
    4-adjacency, walks over open cells, and the counting facts that bound
    a search trace by the number of cells. */
module GridModel {

  /** A cell position (row, col), 0-based. */
  type Coord = (int, int)

  datatype Option<T> = None | Some(value: T)

  /** Cell codes as stored in the matrix. */
  const EMPTY := 0
  const WALL := 1
  const START := 2
  const END := 3

  predicate InBounds(rows: int, cols: int, p: Coord) {
    0 <= p.0 < rows && 0 <= p.1 < cols
  }

  /** g has `rows` rows of `cols` codes each. */
  predicate WellShaped(g: seq<seq<int>>, rows: int, cols: int) {
    |g| == rows && forall r :: 0 <= r < |g| ==> |g[r]| == cols
  }

  /** The all-empty matrix built by the constructor and by reset. */
  function EmptyGrid(rows: nat, cols: nat): (g: seq<seq<int>>)
    ensures WellShaped(g, rows, cols)
    ensures forall r, c :: 0 <= r < rows && 0 <= c < cols ==> g[r][c] == EMPTY
  {
    seq(rows, _ => seq(cols, _ => EMPTY))
  }

  function Abs(x: int): nat {
    if x < 0 then -x else x
  }

  /** p and q are at Manhattan distance 1: no diagonal moves. */
  predicate Adjacent(p: Coord, q: Coord) {
    Abs(p.0 - q.0) + Abs(p.1 - q.1) == 1
  }

  /** One move of a search: from p to a 4-adjacent cell that is on the board
      and is not a wall.  Start and end cells are open like empty ones. */
  predicate Step(g: seq<seq<int>>, rows: int, cols: int, p: Coord, q: Coord)
    requires WellShaped(g, rows, cols)
  {
    Adjacent(p, q) && InBounds(rows, cols, q) && g[q.0][q.1] != WALL
  }

  /** The offsets tried by the neighbour enumeration, in its order:
      up, down, left, right. */
  const Directions: seq<(int, int)> := [(-1, 0), (1, 0), (0, -1), (0, 1)]

  /** Position of q in the up/down/left/right order around p; 4 when q is not
      4-adjacent to p. */
  function DirectionOf(p: Coord, q: Coord): (d: nat)
    ensures d < 4 <==> Adjacent(p, q)
    ensures d < 4 ==> q == (p.0 + Directions[d].0, p.1 + Directions[d].1)
  {
    if q == (p.0 - 1, p.1) then 0
    else if q == (p.0 + 1, p.1) then 1
    else if q == (p.0, p.1 - 1) then 2
    else if q == (p.0, p.1 + 1) then 3
    else 4
  }

  /** The k-th offset leads from p to the one cell in direction k. */
  lemma DirectionOfOffset(p: Coord, k: nat)
    requires k < |Directions|
    ensures forall q :: DirectionOf(p, q) == k <==> q == (p.0 + Directions[k].0, p.1 + Directions[k].1)
  {
  }

  /** Consecutive cells of w are related by Step. */
  predicate IsWalk(g: seq<seq<int>>, rows: int, cols: int, w: seq<Coord>)
    requires WellShaped(g, rows, cols)
  {
    forall j :: 0 <= j < |w| - 1 ==> Step(g, rows, cols, w[j], w[j + 1])
  }

  /** w is a walk from s to e (s and e included). */
  predicate IsPath(g: seq<seq<int>>, rows: int, cols: int, w: seq<Coord>, s: Coord, e: Coord)
    requires WellShaped(g, rows, cols)
  {
    |w| > 0 && w[0] == s && w[|w| - 1] == e && IsWalk(g, rows, cols, w)
  }

  ghost predicate Reachable(g: seq<seq<int>>, rows: int, cols: int, s: Coord, e: Coord)
    requires WellShaped(g, rows, cols)
  {
    exists w :: IsPath(g, rows, cols, w, s, e)
  }

  /** No walk from s to e has fewer cells than `path`. */
  ghost predicate Shortest(g: seq<seq<int>>, rows: int, cols: int, s: Coord, e: Coord, path: seq<Coord>)
    requires WellShaped(g, rows, cols)
  {
    forall w :: IsPath(g, rows, cols, w, s, e) ==> |path| <= |w|
  }

  predicate Distinct(s: seq<Coord>) {
    forall i, j :: 0 <= i < j < |s| ==> s[i] != s[j]
  }

  function Elems(s: seq<Coord>): set<Coord> {
    set x | x in s
  }

  /** The cells of a rows x cols board, row by row. */
  function AllCells(rows: int, cols: int): set<Coord>
    decreases rows
  {
    if rows <= 0 then {} else AllCells(rows - 1, cols) + RowCells(rows - 1, cols)
  }

  /** The first `cols` cells of row r. */
  function RowCells(r: int, cols: int): set<Coord>
    decreases cols
  {
    if cols <= 0 then {} else RowCells(r, cols - 1) + {(r, cols - 1)}
  }

  /** The reversal that turns the end-to-start parent walk into a start-to-end
      path. */
  function Reverse(s: seq<Coord>): (r: seq<Coord>)
    ensures |r| == |s|
    ensures forall i :: 0 <= i < |s| ==> r[i] == s[|s| - 1 - i]
  {
    if s == [] then [] else Reverse(s[1..]) + [s[0]]
  }

  // ---------------------------------------------------------------------
  // Walks

  /** A walk extended by one step is still a walk. */
  lemma ExtendPath(g: seq<seq<int>>, rows: int, cols: int, w: seq<Coord>, s: Coord, p: Coord, q: Coord)
    requires WellShaped(g, rows, cols)
    requires IsPath(g, rows, cols, w, s, p) && Step(g, rows, cols, p, q)
    ensures IsPath(g, rows, cols, w + [q], s, q)
  {
    var w' := w + [q];
    forall j | 0 <= j < |w'| - 1
      ensures Step(g, rows, cols, w'[j], w'[j + 1])
    {
      if j < |w| - 1 {
        assert w'[j] == w[j] && w'[j + 1] == w[j + 1];
      }
    }
  }

  /** Every cell reachable from s is reachable from s by a walk staying inside
      any set that holds s and is closed under Step. */
  lemma {:induction false} ClosedSetHoldsWalk(g: seq<seq<int>>, rows: int, cols: int,
                                              closed: set<Coord>, w: seq<Coord>, i: nat)
    requires WellShaped(g, rows, cols)
    requires |w| > 0 && w[0] in closed && IsWalk(g, rows, cols, w)
    requires forall t, q :: t in closed && Step(g, rows, cols, t, q) ==> q in closed
    requires i < |w|
    ensures w[i] in closed
  {
    if i > 0 {
      ClosedSetHoldsWalk(g, rows, cols, closed, w, i - 1);
      assert Step(g, rows, cols, w[i - 1], w[i]);
    }
  }

  /** A walk needs at least as many moves as the Manhattan distance it covers. */
  lemma {:induction false} WalkCoversManhattan(g: seq<seq<int>>, rows: int, cols: int, w: seq<Coord>)
    requires WellShaped(g, rows, cols)
    requires |w| > 0 && IsWalk(g, rows, cols, w)
    ensures Abs(w[0].0 - w[|w| - 1].0) + Abs(w[0].1 - w[|w| - 1].1) <= |w| - 1
  {
    if |w| > 1 {
      var v := w[..|w| - 1];
      assert IsWalk(g, rows, cols, v) by {
        forall j | 0 <= j < |v| - 1 ensures Step(g, rows, cols, v[j], v[j + 1]) {
          assert v[j] == w[j] && v[j + 1] == w[j + 1];
        }
      }
      WalkCoversManhattan(g, rows, cols, v);
      assert Step(g, rows, cols, w[|w| - 2], w[|w| - 1]);
    }
  }

  /** A cell with no open neighbour reaches only itself. */
  lemma EnclosedReachesOnlyItself(g: seq<seq<int>>, rows: int, cols: int, s: Coord, x: Coord)
    requires WellShaped(g, rows, cols)
    requires forall q :: !Step(g, rows, cols, s, q)
    requires Reachable(g, rows, cols, s, x)
    ensures x == s
  {
    var w :| IsPath(g, rows, cols, w, s, x);
    ClosedSetHoldsWalk(g, rows, cols, {s}, w, |w| - 1);
  }

  // ---------------------------------------------------------------------
  // Counting

  lemma DistinctSnoc(s: seq<Coord>, x: Coord)
    requires Distinct(s) && x !in s
    ensures Distinct(s + [x])
  {
  }

  lemma {:induction false} RowCellsMembers(r: int, cols: int, p: Coord)
    ensures p in RowCells(r, cols) <==> p.0 == r && 0 <= p.1 < cols
    decreases cols
  {
    if cols > 0 {
      RowCellsMembers(r, cols - 1, p);
    }
  }

  /** The board's cells are exactly the in-bounds coordinates. */
  lemma {:induction false} AllCellsMembers(rows: int, cols: int, p: Coord)
    ensures p in AllCells(rows, cols) <==> InBounds(rows, cols, p)
    decreases rows
  {
    if rows > 0 {
      AllCellsMembers(rows - 1, cols, p);
      RowCellsMembers(rows - 1, cols, p);
    }
  }

  /** A sequence without repetitions has as many distinct elements as entries. */
  lemma {:induction false} DistinctCard(s: seq<Coord>)
    requires Distinct(s)
    ensures |Elems(s)| == |s|
  {
    if s != [] {
      var init := s[..|s| - 1];
      DistinctCard(init);
      assert Elems(s) == Elems(init) + {s[|s| - 1]};
      assert s[|s| - 1] !in Elems(init);
    }
  }

  lemma {:induction false} RowCellsCard(r: int, cols: nat)
    ensures |RowCells(r, cols)| == cols
  {
    if cols > 0 {
      RowCellsCard(r, cols - 1);
      RowCellsMembers(r, cols - 1, (r, cols - 1));
    }
  }

  /** A rows x cols board has rows * cols cells. */
  lemma {:induction false} AllCellsCard(rows: nat, cols: nat)
    ensures |AllCells(rows, cols)| == rows * cols
  {
    if rows > 0 {
      var above, last := AllCells(rows - 1, cols), RowCells(rows - 1, cols);
      AllCellsCard(rows - 1, cols);
      RowCellsCard(rows - 1, cols);
      forall p | p in last
        ensures p !in above
      {
        RowCellsMembers(rows - 1, cols, p);
        AllCellsMembers(rows - 1, cols, p);
      }
      assert above * last == {};
      assert (rows - 1) * cols + cols == rows * cols;
    }
  }

  lemma SubsetCard(a: set<Coord>, b: set<Coord>)
    requires a <= b
    ensures |a| <= |b|
  {
    assert b == a + (b - a);
  }

  /** A repetition-free sequence of board cells has at most rows * cols entries. */
  lemma DistinctOnBoard(s: seq<Coord>, rows: nat, cols: nat)
    requires Distinct(s)
    requires forall x :: x in s ==> InBounds(rows, cols, x)
    ensures |s| <= rows * cols
  {
    DistinctCard(s);
    AllCellsCard(rows, cols);
    assert Elems(s) <= AllCells(rows, cols) by {
      forall x | x in Elems(s) ensures x in AllCells(rows, cols) {
        AllCellsMembers(rows, cols, x);
      }
    }
    SubsetCard(Elems(s), AllCells(rows, cols));
  }
}
