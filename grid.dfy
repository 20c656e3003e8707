/** The grid of cells as the engine stores it: one array2 of wall records and
    two array2 of flags, all indexed [y, x]. The queries, the wall carving
    primitive, the flag reset and the visited count work on these arrays. */
module Grid {
  import opened Geometry

  /** p is a cell of the grid that array a stores. */
  predicate InGrid<T>(a: array2<T>, p: Pos)
  {
    InBounds(p, a.Length1, a.Length0)
  }

  predicate SameShape<T, U>(a: array2<T>, b: array2<U>)
  {
    a.Length0 == b.Length0 && a.Length1 == b.Length1
  }

  function WallOf(walls: array2<Walls>, p: Pos, d: Dir): bool
    reads walls
    requires InGrid(walls, p)
  {
    WallAt(walls[p.y, p.x], d)
  }

  /** The solvers' step relation: b is a grid neighbour of a and the wall of
      a facing b is down. */
  ghost predicate OpenStep(walls: array2<Walls>, a: Pos, b: Pos)
    reads walls
  {
    InGrid(walls, a) && InGrid(walls, b) && Adjacent(a, b) && !WallOf(walls, a, DirTo(a, b))
  }

  /** Every consecutive pair of the walk is an open step. */
  ghost predicate OpenChain(walls: array2<Walls>, s: seq<Pos>)
    reads walls
  {
    (forall i :: 0 <= i < |s| ==> InGrid(walls, s[i])) &&
    forall i, j {:trigger s[i], s[j]} :: 0 <= i && j == i + 1 && j < |s| ==> OpenStep(walls, s[i], s[j])
  }

  ghost predicate Distinct<T>(s: seq<T>)
  {
    forall i, j :: 0 <= i < j < |s| ==> s[i] != s[j]
  }

  /** Open walls agree across every pair of neighbouring cells. */
  ghost predicate Symmetric(walls: array2<Walls>)
    reads walls
  {
    forall p, d {:trigger WallOf(walls, p, d), Move(p, d)} :: InGrid(walls, p) && InGrid(walls, Move(p, d)) ==>
      WallOf(walls, p, d) == WallOf(walls, Move(p, d), Opposite(d))
  }

  /** No wall on the outer rim of the grid is down. */
  ghost predicate Enclosed(walls: array2<Walls>)
    reads walls
  {
    forall p, d :: InGrid(walls, p) && !InGrid(walls, Move(p, d)) ==> WallOf(walls, p, d)
  }

  /** The passages between neighbouring cells whose shared wall is down,
      each named once, by its upper-left cell. */
  ghost function OpenPassages(walls: array2<Walls>): set<Passage>
    reads walls
  {
    set p, horizontal | p in AllCells(walls.Length1, walls.Length0) && horizontal in {false, true} &&
      InGrid(walls, Move(p, Heading(horizontal))) && !WallOf(walls, p, Heading(horizontal)) :: Passage(p, horizontal)
  }

  /** Witness walks through open walls from one root cell to every cell. */
  ghost predicate Connected(walls: array2<Walls>, root: Pos, routes: map<Pos, seq<Pos>>)
    reads walls
  {
    forall p {:trigger routes[p]} {:trigger p in routes} :: InGrid(walls, p) ==>
      p in routes && |routes[p]| > 0 && routes[p][0] == root &&
      routes[p][|routes[p]| - 1] == p && OpenChain(walls, routes[p])
  }

  /** A perfect maze: open walls agree across neighbours, the rim is
      closed, there are width * height - 1 passages, and `routes` walks
      from `root` through open walls to every cell. */
  ghost predicate Perfect(walls: array2<Walls>, root: Pos, routes: map<Pos, seq<Pos>>)
    reads walls
  {
    Symmetric(walls) && Enclosed(walls) &&
    |OpenPassages(walls)| == walls.Length1 * walls.Length0 - 1 && Connected(walls, root, routes)
  }

  /** The walls form a perfect maze for some root and routes. */
  ghost predicate Maze(walls: array2<Walls>)
    reads walls
  {
    exists root, routes :: Perfect(walls, root, routes)
  }

  /** The wall records of the grid agree with `view`. */
  ghost predicate Mirrors(walls: array2<Walls>, view: map<Pos, Walls>)
    reads walls
  {
    view.Keys == AllCells(walls.Length1, walls.Length0) &&
    forall p :: p in view ==> walls[p.y, p.x] == view[p]
  }

  /** The flag of a grid cell is set exactly when the cell is in `cells`. */
  ghost predicate Records(flags: array2<bool>, cells: set<Pos>)
    reads flags
  {
    forall p :: InGrid(flags, p) ==> (flags[p.y, p.x] <==> p in cells)
  }

  /** The cells whose flag is set. */
  ghost function Marked(flags: array2<bool>): set<Pos>
    reads flags
  {
    set p | p in AllCells(flags.Length1, flags.Length0) && flags[p.y, p.x]
  }

  /** Every open step out of p leads into `region`. */
  ghost predicate Explored(walls: array2<Walls>, region: set<Pos>, p: Pos)
    reads walls
  {
    forall n {:trigger OpenStep(walls, p, n)} :: OpenStep(walls, p, n) ==> n in region
  }

  ghost predicate Cleared(flags: array2<bool>)
    reads flags
  {
    forall y, x :: 0 <= y < flags.Length0 && 0 <= x < flags.Length1 ==> !flags[y, x]
  }

  /** getValidNeighbors: the neighbours reachable through an open wall of
      cell c, in the order top, right, bottom, left. */
  function ValidNeighbors(walls: array2<Walls>, c: Pos): (ns: seq<Pos>)
    reads walls
    requires InGrid(walls, c)
    ensures forall n :: n in ns <==> OpenStep(walls, c, n)
    ensures Ordered(c, ns)
  {
    var w := walls[c.y, c.x];
    var ns := Gather(c, !w.top && c.y > 0, !w.right && c.x < walls.Length1 - 1,
                        !w.bottom && c.y < walls.Length0 - 1, !w.left && c.x > 0);
    ns
  }

  /** getUnvisitedNeighbors: the in-bounds neighbours of c that are not yet
      visited, in the order top, right, bottom, left. */
  function UnvisitedNeighbors(visited: array2<bool>, c: Pos): (ns: seq<Pos>)
    reads visited
    requires InGrid(visited, c)
    ensures forall n :: n in ns <==> InGrid(visited, n) && Adjacent(c, n) && !visited[n.y, n.x]
    ensures Ordered(c, ns)
  {
    var x, y := c.x, c.y;
    var ns := Gather(c, y > 0 && !visited[y - 1, x], x < visited.Length1 - 1 && !visited[y, x + 1],
                        y < visited.Length0 - 1 && !visited[y + 1, x], x > 0 && !visited[y, x - 1]);
    ns
  }

  /** removeWall: opens the side of `current` chosen by CarveDir and the
      opposite side of `next`; no other flag of any cell changes. */
  method RemoveWall(walls: array2<Walls>, current: Pos, next: Pos)
    requires InGrid(walls, current) && InGrid(walls, next)
    modifies walls
    ensures forall y, x :: 0 <= y < walls.Length0 && 0 <= x < walls.Length1 ==>
      walls[y, x] == Carved(old(walls[y, x]), Pos(x, y), current, next)
  {
    var dx, dy := next.x - current.x, next.y - current.y;
    if dx == 1 {
      walls[current.y, current.x] := walls[current.y, current.x].(right := false);
      walls[next.y, next.x] := walls[next.y, next.x].(left := false);
    } else if dx == -1 {
      walls[current.y, current.x] := walls[current.y, current.x].(left := false);
      walls[next.y, next.x] := walls[next.y, next.x].(right := false);
    } else if dy == 1 {
      walls[current.y, current.x] := walls[current.y, current.x].(bottom := false);
      walls[next.y, next.x] := walls[next.y, next.x].(top := false);
    } else if dy == -1 {
      walls[current.y, current.x] := walls[current.y, current.x].(top := false);
      walls[next.y, next.x] := walls[next.y, next.x].(bottom := false);
    }
  }

  /** Sets the flag of cell p; the flags then record `cells` with p added. */
  method Mark(flags: array2<bool>, p: Pos, ghost cells: set<Pos>)
    requires InGrid(flags, p) && Records(flags, cells)
    modifies flags
    ensures Records(flags, cells + {p})
  {
    flags[p.y, p.x] := true;
    forall q | InGrid(flags, q)
      ensures flags[q.y, q.x] <==> q in cells + {p}
    {
      if q.x == p.x && q.y == p.y {
        assert q == p;
      }
    }
  }

  /** Cleared flags record the empty set. */
  lemma ClearedRecords(flags: array2<bool>)
    requires Cleared(flags)
    ensures Records(flags, {})
  {
  }

  /** The reset loop: clears `visited` and `inPath` on every cell. Walls are
      outside its frame, and the final state does not depend on the initial
      one, so running it twice is the same as running it once. */
  method ResetFlags(visited: array2<bool>, inPath: array2<bool>)
    requires SameShape(visited, inPath)
    modifies visited, inPath
    ensures Cleared(visited) && Cleared(inPath)
  {
    for y := 0 to visited.Length0
      invariant forall i, j :: 0 <= i < y && 0 <= j < visited.Length1 ==> !visited[i, j] && !inPath[i, j]
    {
      for x := 0 to visited.Length1
        invariant forall i, j :: 0 <= i < y && 0 <= j < visited.Length1 ==> !visited[i, j] && !inPath[i, j]
        invariant forall j :: 0 <= j < x ==> !visited[y, j] && !inPath[y, j]
      {
        visited[y, x] := false;
        inPath[y, x] := false;
      }
    }
  }

  /** Number of set flags in the first x cells of row y. */
  ghost function RowCount(flags: array2<bool>, y: int, x: int): nat
    reads flags
    requires 0 <= y < flags.Length0 && 0 <= x <= flags.Length1
  {
    if x == 0 then 0 else RowCount(flags, y, x - 1) + (if flags[y, x - 1] then 1 else 0)
  }

  /** Number of set flags in the first y rows. */
  ghost function RowsCount(flags: array2<bool>, y: int): nat
    reads flags
    requires 0 <= y <= flags.Length0
  {
    if y == 0 then 0 else RowsCount(flags, y - 1) + RowCount(flags, y - 1, flags.Length1)
  }

  /** The number of cells whose flag is set. */
  ghost function VisitedCount(flags: array2<bool>): nat
    reads flags
  {
    RowsCount(flags, flags.Length0)
  }

  /** countVisited: scans the grid row by row and returns the number of
      cells whose visited flag is set. */
  method CountVisited(visited: array2<bool>) returns (count: nat)
    ensures count == VisitedCount(visited) && count == |Marked(visited)|
  {
    MarkedCount(visited);
    count := 0;
    for y := 0 to visited.Length0
      invariant count == RowsCount(visited, y)
    {
      for x := 0 to visited.Length1
        invariant count == RowsCount(visited, y) + RowCount(visited, y, x)
      {
        if visited[y, x] {
          count := count + 1;
        }
      }
    }
  }

  lemma {:induction false} RowCountBound(flags: array2<bool>, y: int, x: int)
    requires 0 <= y < flags.Length0 && 0 <= x <= flags.Length1
    ensures RowCount(flags, y, x) <= x
  {
    if x > 0 {
      RowCountBound(flags, y, x - 1);
    }
  }

  lemma {:induction false} RowsCountBound(flags: array2<bool>, y: int)
    requires 0 <= y <= flags.Length0
    ensures RowsCount(flags, y) <= y * flags.Length1
  {
    if y > 0 {
      RowsCountBound(flags, y - 1);
      RowCountBound(flags, y - 1, flags.Length1);
      assert (y - 1) * flags.Length1 + flags.Length1 == y * flags.Length1;
    }
  }

  lemma {:induction false} RowCountPositive(flags: array2<bool>, y: int, x: int, c: int)
    requires 0 <= y < flags.Length0 && 0 <= c < x <= flags.Length1 && flags[y, c]
    ensures RowCount(flags, y, x) >= 1
  {
    if c < x - 1 {
      RowCountPositive(flags, y, x - 1, c);
    }
  }

  lemma {:induction false} RowsCountPositive(flags: array2<bool>, y: int, p: Pos)
    requires InGrid(flags, p) && p.y < y <= flags.Length0 && flags[p.y, p.x]
    ensures RowsCount(flags, y) >= 1
  {
    if p.y < y - 1 {
      RowsCountPositive(flags, y - 1, p);
    } else {
      RowCountPositive(flags, p.y, flags.Length1, p.x);
    }
  }

  /** The visited count is between 1 and the number of cells once some cell
      is visited. */
  lemma VisitedCountBounds(flags: array2<bool>, p: Pos)
    requires InGrid(flags, p) && flags[p.y, p.x]
    ensures 1 <= VisitedCount(flags) <= flags.Length0 * flags.Length1
  {
    RowsCountPositive(flags, flags.Length0, p);
    RowsCountBound(flags, flags.Length0);
  }

  /** The set cells among the first x cells of row y. */
  ghost function MarkedInRow(flags: array2<bool>, y: int, x: int): set<Pos>
    reads flags
    requires 0 <= y < flags.Length0 && 0 <= x <= flags.Length1
  {
    set p | p in Row(x, y) && flags[p.y, p.x]
  }

  /** The set cells among the first y rows. */
  ghost function MarkedInRows(flags: array2<bool>, y: int): set<Pos>
    reads flags
    requires 0 <= y <= flags.Length0
  {
    set p | p in AllCells(flags.Length1, y) && flags[p.y, p.x]
  }

  /** Row y's set cells split off the first x - 1 of them. */
  lemma RowSplit(flags: array2<bool>, y: int, x: int)
    requires 0 <= y < flags.Length0 && 0 < x <= flags.Length1
    ensures var prev := MarkedInRow(flags, y, x - 1);
      Pos(x - 1, y) !in prev &&
      MarkedInRow(flags, y, x) == if flags[y, x - 1] then prev + {Pos(x - 1, y)} else prev
  {
  }

  /** The first y rows' set cells are the first y - 1 rows' and the last row's, disjointly. */
  lemma RowsSplit(flags: array2<bool>, y: int)
    requires 0 < y <= flags.Length0
    ensures var upper, last := MarkedInRows(flags, y - 1), MarkedInRow(flags, y - 1, flags.Length1);
      |MarkedInRows(flags, y)| == |upper| + |last|
  {
    var upper, last := MarkedInRows(flags, y - 1), MarkedInRow(flags, y - 1, flags.Length1);
    assert MarkedInRows(flags, y) == upper + last;
    DisjointSize(upper, last);
  }

  lemma NoRows(flags: array2<bool>)
    ensures MarkedInRows(flags, 0) == {}
  {
    assert forall p :: p !in AllCells(flags.Length1, 0);
  }

  lemma DisjointSize(a: set<Pos>, b: set<Pos>)
    requires a !! b
    ensures |a + b| == |a| + |b|
  {
  }

  lemma {:induction false} RowCountMarked(flags: array2<bool>, y: int, x: int)
    requires 0 <= y < flags.Length0 && 0 <= x <= flags.Length1
    ensures RowCount(flags, y, x) == |MarkedInRow(flags, y, x)|
  {
    if x == 0 {
      assert MarkedInRow(flags, y, 0) == {};
    } else {
      RowCountMarked(flags, y, x - 1);
      RowSplit(flags, y, x);
      if flags[y, x - 1] {
        DisjointSize(MarkedInRow(flags, y, x - 1), {Pos(x - 1, y)});
      }
    }
  }

  lemma {:induction false} RowsCountMarked(flags: array2<bool>, y: int)
    requires 0 <= y <= flags.Length0
    ensures RowsCount(flags, y) == |MarkedInRows(flags, y)|
  {
    if y == 0 {
      NoRows(flags);
    } else {
      RowsCountMarked(flags, y - 1);
      RowCountMarked(flags, y - 1, flags.Length1);
      RowsSplit(flags, y);
    }
  }

  /** The visited count is the number of cells whose flag is set, however
      the scan is ordered. */
  lemma MarkedCount(flags: array2<bool>)
    ensures VisitedCount(flags) == |Marked(flags)|
  {
    RowsCountMarked(flags, flags.Length0);
    assert Marked(flags) == MarkedInRows(flags, flags.Length0);
  }

  /** Flags that record a set of grid cells mark exactly that set, so the
      visited count is its size. */
  lemma RecordsCount(flags: array2<bool>, cells: set<Pos>)
    requires Records(flags, cells) && cells <= AllCells(flags.Length1, flags.Length0)
    ensures Marked(flags) == cells && VisitedCount(flags) == |cells|
  {
    MarkedCount(flags);
  }

  /** A path without repeats through the grid has at most one entry per cell. */
  lemma {:induction false} DistinctPathBound(s: seq<Pos>, w: nat, h: nat)
    requires Distinct(s)
    requires forall i :: 0 <= i < |s| ==> InBounds(s[i], w, h)
    ensures |s| <= w * h
  {
    var cells := set i | 0 <= i < |s| :: s[i];
    DistinctCard(s);
    AllCellsSize(w, h);
    assert AllCells(w, h) == cells + (AllCells(w, h) - cells);
    assert |AllCells(w, h)| == |cells| + |AllCells(w, h) - cells|;
  }

  lemma {:induction false} DistinctCard(s: seq<Pos>)
    requires Distinct(s)
    ensures |set i | 0 <= i < |s| :: s[i]| == |s|
  {
    if |s| > 0 {
      var init := s[..|s| - 1];
      DistinctCard(init);
      assert (set i | 0 <= i < |s| :: s[i]) == (set i | 0 <= i < |init| :: init[i]) + {s[|s| - 1]};
    }
  }

  lemma OpenStepSymmetric(walls: array2<Walls>, a: Pos, b: Pos)
    requires Symmetric(walls) && OpenStep(walls, a, b)
    ensures OpenStep(walls, b, a)
  {
    var d := DirTo(a, b);
    MoveFacts(a, d);
  }

  /** In a closed region every cell of an open walk that ends inside lies inside. */
  lemma {:induction false} WalkBackInto(walls: array2<Walls>, region: set<Pos>, s: seq<Pos>, k: int)
    requires Symmetric(walls) && OpenChain(walls, s)
    requires forall p :: p in region ==> Explored(walls, region, p)
    requires 0 <= k < |s| && s[|s| - 1] in region
    ensures s[k] in region
    decreases |s| - k
  {
    if k < |s| - 1 {
      WalkBackInto(walls, region, s, k + 1);
      OpenStepSymmetric(walls, s[k], s[k + 1]);
    }
  }

  lemma {:induction false} WalkForwardInto(walls: array2<Walls>, region: set<Pos>, s: seq<Pos>, k: int)
    requires OpenChain(walls, s)
    requires forall p :: p in region ==> Explored(walls, region, p)
    requires 0 <= k < |s| && s[0] in region
    ensures s[k] in region
  {
    if k > 0 {
      WalkForwardInto(walls, region, s, k - 1);
    }
  }

  /** A region of a symmetric, connected maze that holds `start` and from
      which no open step leads out holds every cell, `end` among them. */
  lemma ClosedRegionReaches(walls: array2<Walls>, root: Pos, routes: map<Pos, seq<Pos>>,
                            region: set<Pos>, start: Pos, end: Pos)
    requires Symmetric(walls) && Connected(walls, root, routes)
    requires InGrid(walls, start) && InGrid(walls, end) && start in region
    requires forall p :: p in region ==> Explored(walls, region, p)
    ensures end in region
  {
    WalkBackInto(walls, region, routes[start], 0);
    WalkForwardInto(walls, region, routes[end], |routes[end]| - 1);
  }
}
