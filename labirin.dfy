/** The maze engine's state and its operations: building a maze, the two
    depth-first solvers, the flag resets and the stored results. */
module Labirin {
  import opened Wrappers
  import opened Geometry
  import opened Grid
  import opened Carving

  /** What one solver run returns: the path found (empty when none) and the
      number of visited cells at the moment it stopped. */
  datatype Solved = Solved(path: seq<Pos>, visited: nat)

  /** The integer fields of the results record one solver run leaves. */
  datatype Metrics = Metrics(visited: nat, pathLength: nat)

  datatype Solver = Recursive | Iterative

  /** An entry of the iterative solver's stack: a cell and the path to it. */
  datatype Entry = Entry(cell: Pos, path: seq<Pos>)

  /** A walk through open walls that visits no cell twice. */
  ghost predicate Walk(walls: array2<Walls>, s: seq<Pos>)
    reads walls
  {
    OpenChain(walls, s) && Distinct(s)
  }

  /** The pause of one solver step in milliseconds, Math.max(1, 100 - speed). */
  function Delay(speed: int): (ms: int)
    ensures ms >= 1 && ms >= 100 - speed
    ensures ms == 1 || ms == 100 - speed
  {
    if 100 - speed > 1 then 100 - speed else 1
  }

  /** A higher animation speed never lengthens the pause. */
  lemma DelayMonotone(slow: int, fast: int)
    requires slow <= fast
    ensures Delay(fast) <= Delay(slow)
  {
  }

  /** A walk extended by an open step to a cell outside every cell it holds. */
  lemma WalkExtend(walls: array2<Walls>, s: seq<Pos>, n: Pos, seen: set<Pos>)
    requires Walk(walls, s) && |s| > 0 && OpenStep(walls, s[|s| - 1], n)
    requires (forall i :: 0 <= i < |s| ==> s[i] in seen) && n !in seen
    ensures Walk(walls, s + [n])
  {
    var t := s + [n];
    forall i | 0 <= i < |t| - 1
      ensures OpenStep(walls, t[i], t[i + 1])
    {
      if i < |s| - 1 {
        assert t[i] == s[i] && t[i + 1] == s[i + 1];
      }
    }
    forall i, j | 0 <= i < j < |t|
      ensures t[i] != t[j]
    {
      if j < |s| {
        assert t[i] == s[i] && t[j] == s[j];
      } else {
        assert t[i] == s[i] && t[i] in seen;
      }
    }
  }

  /** Every prefix of a walk is a walk. */
  lemma WalkPrefix(walls: array2<Walls>, s: seq<Pos>, k: nat)
    requires Walk(walls, s) && k <= |s|
    ensures Walk(walls, s[..k])
  {
    var t := s[..k];
    forall i | 0 <= i < |t| - 1
      ensures OpenStep(walls, t[i], t[i + 1])
    {
      assert t[i] == s[i] && t[i + 1] == s[i + 1];
    }
  }

  /** The path recorded on success: it starts with `prefix`, then `cell`, and
      it ends at `end`. */
  ghost predicate Extends(path: seq<Pos>, prefix: seq<Pos>, cell: Pos, end: Pos)
  {
    |path| > |prefix| && path[..|prefix|] == prefix && path[|prefix|] == cell && path[|path| - 1] == end
  }

  /** A path that continues `prefix` and ends at `end`. */
  ghost predicate Continues(path: seq<Pos>, prefix: seq<Pos>, end: Pos)
  {
    |path| >= |prefix| > 0 && path[..|prefix|] == prefix && path[|path| - 1] == end
  }

  /** A path that continues prefix + [cell] to `end` extends prefix by cell. */
  lemma ContinuesAfter(path: seq<Pos>, prefix: seq<Pos>, cell: Pos, end: Pos)
    requires Continues(path, prefix + [cell], end)
    ensures Extends(path, prefix, cell, end)
  {
    assert path[..|prefix|] == path[..|prefix| + 1][..|prefix|];
    assert path[|prefix|] == path[..|prefix| + 1][|prefix|];
  }

  /** The engine's global state: the grid as three arrays, the fixed start and
      end cells, the path array the recursive solver shares between its calls,
      and the results record. */
  class Session {
    var walls: array2<Walls>
    var visited: array2<bool>
    var inPath: array2<bool>
    var start: Pos
    var end: Pos
    var trail: seq<Pos>
    var recursive: Option<Metrics>
    var iterative: Option<Metrics>

    /** The arrays have one shape of at least one cell, start is the top-left
        and end the bottom-right cell. */
    ghost predicate Shaped()
      reads this`walls, this`visited, this`inPath, this`start, this`end
    {
      SameShape(walls, visited) && SameShape(visited, inPath) && visited != inPath &&
      walls.Length0 >= 1 && walls.Length1 >= 1 &&
      start == Pos(0, 0) && end == Pos(walls.Length1 - 1, walls.Length0 - 1)
    }

    /** The walls form a perfect maze: symmetric, closed at the rim, with
        width * height - 1 passages that connect every cell. */
    ghost predicate Valid()
      reads this`walls, this`visited, this`inPath, this`start, this`end, walls
    {
      Shaped() && Maze(walls)
    }

    /** buatLabirin on a fresh grid: every cell starts with four walls and
        cleared flags, the carving loop runs, the flags are cleared again. */
    static method Build(width: nat, height: nat, rng: nat -> nat)
      returns (walls: array2<Walls>, visited: array2<bool>, inPath: array2<bool>)
      requires width >= 1 && height >= 1
      ensures fresh(walls) && fresh(visited) && fresh(inPath)
      ensures walls.Length1 == width && walls.Length0 == height
      ensures SameShape(walls, visited) && SameShape(visited, inPath) && visited != inPath
      ensures Maze(walls)
      ensures Cleared(visited) && Cleared(inPath)
    {
      walls := new Walls[height, width]((y, x) => Closed);
      visited := new bool[height, width]((y, x) => false);
      inPath := new bool[height, width]((y, x) => false);
      ghost var root, routes := Carve(walls, visited, rng);
      ResetFlags(visited, inPath);
    }

    /** init: the first maze, no results stored. */
    constructor (width: nat, height: nat, rng: nat -> nat)
      requires width >= 1 && height >= 1
      ensures Valid() && walls.Length1 == width && walls.Length0 == height
      ensures fresh(walls) && fresh(visited) && fresh(inPath)
      ensures Cleared(visited) && Cleared(inPath)
      ensures recursive == None && iterative == None
    {
      var w, v, p := Build(width, height, rng);
      walls, visited, inPath := w, v, p;
      start, end := Pos(0, 0), Pos(width - 1, height - 1);
      trail := [];
      recursive, iterative := None, None;
    }

    /** buatLabirin: a new maze of the given size replaces the grid; start
        and end go to the two opposite corners and every flag is cleared. */
    method Generate(width: nat, height: nat, rng: nat -> nat)
      requires width >= 1 && height >= 1
      modifies this`walls, this`visited, this`inPath, this`start, this`end
      ensures Valid() && walls.Length1 == width && walls.Length0 == height
      ensures fresh(walls) && fresh(visited) && fresh(inPath)
      ensures Cleared(visited) && Cleared(inPath)
    {
      var w, v, p := Build(width, height, rng);
      walls, visited, inPath, start, end := w, v, p, Pos(0, 0), Pos(width - 1, height - 1);
    }

    /** bersihkanJalur: clears every visited and inPath flag; the walls and
        everything else stay as they are. */
    method ClearPath()
      requires Shaped()
      modifies visited, inPath
      ensures Cleared(visited) && Cleared(inPath)
    {
      ResetFlags(visited, inPath);
    }

    /** resetResults: forgets both stored results. */
    method ResetResults()
      modifies this`recursive, this`iterative
      ensures recursive == None && iterative == None
    {
      recursive, iterative := None, None;
    }

    /** What a run of selesaikan leaves behind on a valid maze: the maze is
        still valid, no cell is flagged inPath, `path` is a walk through open
        walls without repeats from start to end, and the metrics are the
        number of cells now flagged visited, between 1 and width * height,
        and the length of `path`, at most width * height. */
    ghost predicate Answered(path: seq<Pos>, m: Metrics)
      reads this`walls, this`visited, this`inPath, this`start, this`end, walls, visited, inPath
    {
      Valid() && Cleared(inPath) &&
      |path| > 0 && path[0] == start && path[|path| - 1] == end && Walk(walls, path) &&
      m == Metrics(VisitedCount(visited), |path|) && 1 <= m.visited <= walls.Length0 * walls.Length1 &&
      m.pathLength <= walls.Length0 * walls.Length1
    }

    /** selesaikan: clears the flags, runs the chosen solver from start and
        stores the visited count and the path length of its result. On a
        valid maze both solvers find a walk from start to end. */
    method Solve(which: Solver) returns (path: seq<Pos>, m: Metrics)
      requires Valid()
      modifies this`trail, this`recursive, this`iterative, visited, inPath
      ensures Answered(path, m)
      ensures which == Recursive ==> recursive == Some(m) && iterative == old(iterative)
      ensures which == Iterative ==> iterative == Some(m) && recursive == old(recursive)
    {
      if which == Recursive {
        path, m := SolveRecursive();
      } else {
        path, m := SolveIterative();
      }
    }

    /** selesaikan('rekursif'): dfsRekursif(startNode, []) on a perfect maze
        cannot return null, since its failure would leave a set of marked
        cells closed under open steps holding the start but not the end. */
    method SolveRecursive() returns (path: seq<Pos>, m: Metrics)
      requires Valid()
      modifies this`trail, this`recursive, visited, inPath
      ensures Answered(path, m)
      ensures recursive == Some(m)
    {
      ResetFlags(visited, inPath);
      assert Maze(walls);
      var found;
      ghost var seen;
      found, seen := StartRecursive();
      assert Maze(walls);
      if found.None? {
        NoClosedRegion(walls, seen, start, end);
        assert false;
      }
      path := found.value.path;
      VisitedCountBounds(visited, start);
      DistinctPathBound(path, walls.Length1, walls.Length0);
      m := Metrics(found.value.visited, |path|);
      recursive := Some(m);
    }

    /** The call dfsRekursif(startNode, []) with every flag cleared. A result
        is a walk from start to end; null means the end was never marked and
        every marked cell has all its open neighbours marked. */
    method StartRecursive() returns (r: Option<Solved>, ghost seen: set<Pos>)
      requires Shaped() && Cleared(visited)
      modifies this`trail, visited
      ensures Records(visited, seen) && start in seen
      ensures r.Some? ==> |r.value.path| > 0 && r.value.path[0] == start &&
                          r.value.path[|r.value.path| - 1] == end && Walk(walls, r.value.path)
      ensures r.Some? ==> r.value.visited == VisitedCount(visited)
      ensures r.None? ==> end !in seen && forall p :: p in seen ==> Explored(walls, seen, p)
    {
      ClearedRecords(visited);
      trail := [];
      r, seen := DfsRecursive(start, {});
      assert seen - {} == seen;
    }

    /** selesaikan('iteratif'): dfsIteratif on a perfect maze never runs its
        stack empty, by the same argument. */
    method SolveIterative() returns (path: seq<Pos>, m: Metrics)
      requires Valid()
      modifies this`iterative, visited, inPath
      ensures Answered(path, m)
      ensures iterative == Some(m)
    {
      ResetFlags(visited, inPath);
      assert Maze(walls);
      var r;
      ghost var seen;
      r, seen := DfsIterative();
      assert Maze(walls);
      if r.path == [] {
        NoClosedRegion(walls, seen, start, end);
        assert false;
      }
      path := r.path;
      VisitedCountBounds(visited, start);
      DistinctPathBound(path, walls.Length1, walls.Length0);
      m := Metrics(r.visited, |path|);
      iterative := Some(m);
    }

    /** dfsRekursif: marks `cell`, appends it to the shared path and, unless it
        is the end, tries its unvisited open neighbours in order, stopping at
        the first that succeeds. On success the shared path is the result: it
        starts with the path as given, then `cell`, ends at the end cell and
        is a walk through open walls without repeats. On failure the shared
        path is as given, the end was not reached, and every cell this call
        marked has all its open neighbours marked. */
    method DfsRecursive(cell: Pos, ghost seen: set<Pos>) returns (r: Option<Solved>, ghost seen': set<Pos>)
      requires Shaped() && InGrid(walls, cell)
      requires Records(visited, seen) && cell !in seen && seen <= AllCells(walls.Length1, walls.Length0)
      requires Walk(walls, trail + [cell]) && forall i :: 0 <= i < |trail| ==> trail[i] in seen
      modifies this`trail, visited
      ensures Records(visited, seen') && seen + {cell} <= seen' <= AllCells(walls.Length1, walls.Length0)
      ensures Walk(walls, trail)
      ensures r.Some? ==> r.value.path == trail && Extends(trail, old(trail), cell, end)
      ensures r.Some? ==> r.value.visited == VisitedCount(visited)
      ensures r.None? ==> trail == old(trail) && end !in seen' - seen
      ensures r.None? ==> forall p :: p in seen' - seen ==> Explored(walls, seen', p)
      decreases AllCells(walls.Length1, walls.Length0) - seen, 1
    {
      Mark(visited, cell, seen);
      seen' := seen + {cell};
      trail := trail + [cell];
      if cell == end {
        var count := CountVisited(visited);
        assert trail[..|old(trail)|] == old(trail);
        return Some(Solved(trail, count)), seen';
      }
      r, seen' := TryNeighbors(cell, seen');
      if r.Some? {
        ContinuesAfter(trail, old(trail), cell, end);
        return;
      }
      WalkPrefix(walls, trail, |trail| - 1);
      trail := trail[..|trail| - 1];
    }

    /** The loop of dfsRekursif over the open neighbours of `cell`, which ends
        the shared path: each neighbour not yet marked is searched from in
        turn, until one search succeeds. On failure every open neighbour of
        `cell` and every cell marked meanwhile has all its open neighbours
        marked, and the end is not among the cells marked meanwhile. */
    method TryNeighbors(cell: Pos, ghost seen: set<Pos>) returns (r: Option<Solved>, ghost seen': set<Pos>)
      requires Shaped() && InGrid(walls, cell) && cell != end
      requires Records(visited, seen) && cell in seen && seen <= AllCells(walls.Length1, walls.Length0)
      requires Walk(walls, trail) && |trail| > 0 && trail[|trail| - 1] == cell
      requires forall i :: 0 <= i < |trail| ==> trail[i] in seen
      modifies this`trail, visited
      ensures Records(visited, seen') && seen <= seen' <= AllCells(walls.Length1, walls.Length0)
      ensures Walk(walls, trail)
      ensures r.Some? ==> r.value.path == trail && Continues(trail, old(trail), end)
      ensures r.Some? ==> r.value.visited == VisitedCount(visited)
      ensures r.None? ==> trail == old(trail) && end !in seen' - seen
      ensures r.None? ==> Explored(walls, seen', cell) && forall p :: p in seen' - seen ==> Explored(walls, seen', p)
      decreases AllCells(walls.Length1, walls.Length0) - seen, 2
    {
      var neighbors := ValidNeighbors(walls, cell);
      seen' := seen;
      var i := 0;
      while i < |neighbors|
        invariant 0 <= i <= |neighbors|
        invariant Records(visited, seen') && seen <= seen' <= AllCells(walls.Length1, walls.Length0)
        invariant trail == old(trail) && Walk(walls, trail)
        invariant forall j :: 0 <= j < i ==> neighbors[j] in seen'
        invariant end !in seen' - seen
        invariant forall p :: p in seen' - seen ==> Explored(walls, seen', p)
      {
        var n := neighbors[i];
        assert OpenStep(walls, cell, n);
        if !visited[n.y, n.x] {
          WalkExtend(walls, trail, n, seen');
          ghost var before := seen';
          r, seen' := DfsRecursive(n, seen');
          if r.Some? {
            return;
          }
          RecursionFailed(walls, seen, before, seen');
        }
        i := i + 1;
      }
      r := None;
    }

    /** dfsIteratif: a stack of (cell, path) entries seeded with the start;
        neighbours are marked when they are pushed. It returns the path of
        the first entry popped at the end cell; if the stack runs empty it
        returns an empty path, and then the end was never marked and every
        marked cell has all its open neighbours marked. No cell is pushed
        twice (`pushed` lists the pushes in order). */
    method DfsIterative() returns (r: Solved, ghost seen: set<Pos>)
      requires Shaped() && Cleared(visited)
      modifies visited
      ensures Records(visited, seen) && start in seen && r.visited == VisitedCount(visited)
      ensures r.path != [] ==> r.path[0] == start && r.path[|r.path| - 1] == end && Walk(walls, r.path)
      ensures r.path == [] ==> end !in seen && forall p :: p in seen ==> Explored(walls, seen, p)
    {
      var stack := [Entry(start, [start])];
      ClearedRecords(visited);
      Mark(visited, start, {});
      seen := {start};
      ghost var pending := [start];
      ghost var pushed := [start];
      while |stack| > 0
        invariant Records(visited, seen) && Searched(walls, stack, pending, pushed, seen, start, end)
        decreases AllCells(walls.Length1, walls.Length0) - seen, |stack|
      {
        var e := stack[|stack| - 1];
        Popped(walls, stack, pending, pushed, seen, start, end);
        ghost var stackBefore, pendingBefore, pushedBefore, seenBefore := stack, pending, pushed, seen;
        stack := stack[..|stack| - 1];
        pending := pending[..|pending| - 1];
        if e.cell == end {
          var count := CountVisited(visited);
          return Solved(e.path, count), seen;
        }
        stack, pending, pushed, seen := PushNeighbors(e, stack, pending, pushed, seen);
        Advanced(walls, stackBefore, pendingBefore, pushedBefore, seenBefore, start, end, e,
                 stack, pending, pushed, seen);
      }
      var count := CountVisited(visited);
      r := Solved([], count);
    }

    /** The inner loop of dfsIteratif: each open neighbour of the popped
        entry's cell that is not yet marked is marked and pushed with the
        entry's path extended by it. Afterwards every open neighbour of the
        cell is marked, and every newly marked cell is pending on the stack. */
    method PushNeighbors(e: Entry, stack0: seq<Entry>, ghost pending0: seq<Pos>, ghost pushed0: seq<Pos>,
                         ghost seen0: set<Pos>)
      returns (stack: seq<Entry>, ghost pending: seq<Pos>, ghost pushed: seq<Pos>, ghost seen: set<Pos>)
      requires Shaped() && InGrid(walls, e.cell)
      requires Records(visited, seen0) && seen0 <= AllCells(walls.Length1, walls.Length0)
      requires Stacked(walls, stack0, pending0, start, seen0) && PathTo(walls, e, start, seen0)
      requires Distinct(pushed0) && forall k :: 0 <= k < |pushed0| ==> pushed0[k] in seen0
      modifies visited
      ensures Records(visited, seen) && seen0 <= seen <= AllCells(walls.Length1, walls.Length0)
      ensures (seen == seen0 && |stack| == |stack0|) || AllCells(walls.Length1, walls.Length0) - seen < AllCells(walls.Length1, walls.Length0) - seen0
      ensures Stacked(walls, stack, pending, start, seen)
      ensures Distinct(pushed) && forall k :: 0 <= k < |pushed| ==> pushed[k] in seen
      ensures Explored(walls, seen, e.cell)
      ensures forall p :: p in pending0 || p in seen - seen0 ==> p in pending
      ensures Along(e, stack0, pending0, pushed0, seen0, Pushes(ValidNeighbors(walls, e.cell), seen0),
                    stack, pending, pushed, seen)
    {
      stack, pending, pushed, seen := ScanNeighbors(e, stack0, pending0, pushed0, seen0);
      PassDone(walls, e, stack0, pending0, pushed0, seen0, ValidNeighbors(walls, e.cell), stack, pending, pushed, seen);
    }

    /** The for loop of dfsIteratif over the open neighbours of the popped
        cell, in the order listed: the pass pushes `Pushes` of that list. */
    method ScanNeighbors(e: Entry, stack0: seq<Entry>, ghost pending0: seq<Pos>, ghost pushed0: seq<Pos>,
                         ghost seen0: set<Pos>)
      returns (stack: seq<Entry>, ghost pending: seq<Pos>, ghost pushed: seq<Pos>, ghost seen: set<Pos>)
      requires Shaped() && InGrid(walls, e.cell)
      requires Records(visited, seen0) && seen0 <= AllCells(walls.Length1, walls.Length0)
      requires Stacked(walls, stack0, pending0, start, seen0) && PathTo(walls, e, start, seen0)
      modifies visited
      ensures Scanning(e, stack0, pending0, pushed0, seen0, Pushes(ValidNeighbors(walls, e.cell), seen0),
                       stack, pending, pushed, seen)
    {
      var neighbors := ValidNeighbors(walls, e.cell);
      stack, pending, pushed, seen := stack0, pending0, pushed0, seen0;
      var i := 0;
      while i < |neighbors|
        invariant 0 <= i <= |neighbors|
        invariant Scanning(e, stack0, pending0, pushed0, seen0, Pushes(neighbors[..i], seen0), stack, pending, pushed, seen)
      {
        var n := neighbors[i];
        assert OpenStep(walls, e.cell, n);
        PushesStep(neighbors, i, seen0, seen);
        stack, pending, pushed, seen := PushIfUnmarked(e, n, stack0, pending0, pushed0, seen0,
                                                       Pushes(neighbors[..i], seen0), stack, pending, pushed, seen);
        i := i + 1;
      }
      assert neighbors[..i] == neighbors;
    }

    /** Part way through dfsIteratif's for loop over the open neighbours of
        `e.cell`, started from the stack `stack0` with the cells `seen0`
        marked: the flags record the marked cells, the stack is well formed,
        the popped entry's path runs from start to its cell, and the pass so
        far has pushed `q`. */
    ghost predicate Scanning(e: Entry, stack0: seq<Entry>, pending0: seq<Pos>, pushed0: seq<Pos>, seen0: set<Pos>,
                             q: seq<Pos>, stack: seq<Entry>, pending: seq<Pos>, pushed: seq<Pos>, seen: set<Pos>)
      reads this, walls, visited
    {
      Records(visited, seen) && seen <= AllCells(walls.Length1, walls.Length0) &&
      Stacked(walls, stack, pending, start, seen) && PathTo(walls, e, start, seen) &&
      Along(e, stack0, pending0, pushed0, seen0, q, stack, pending, pushed, seen)
    }

    /** One step of the inner loop of dfsIteratif: an unmarked open neighbour
      `n` of the popped cell is marked and pushed with the popped path
      extended by it; a marked one changes nothing. */
    method PushIfUnmarked(e: Entry, n: Pos, ghost stack0: seq<Entry>, ghost pending0: seq<Pos>, ghost pushed0: seq<Pos>,
                          ghost seen0: set<Pos>, ghost q: seq<Pos>, stack1: seq<Entry>, ghost pending1: seq<Pos>,
                          ghost pushed1: seq<Pos>, ghost seen1: set<Pos>)
      returns (stack: seq<Entry>, ghost pending: seq<Pos>, ghost pushed: seq<Pos>, ghost seen: set<Pos>)
      requires Shaped() && OpenStep(walls, e.cell, n)
      requires Scanning(e, stack0, pending0, pushed0, seen0, q, stack1, pending1, pushed1, seen1)
      modifies visited
      ensures Scanning(e, stack0, pending0, pushed0, seen0, if n in seen1 then q else q + [n], stack, pending, pushed, seen)
    {
      stack, pending, pushed, seen := stack1, pending1, pushed1, seen1;
      if !visited[n.y, n.x] {
        Mark(visited, n, seen1);
        PushEntry(walls, stack1, pending1, start, seen1, e, n);
        AlongPush(e, stack0, pending0, pushed0, seen0, q, stack1, pending1, pushed1, seen1, n);
        stack := stack1 + [Entry(n, e.path + [n])];
        pending := pending1 + [n];
        pushed := pushed1 + [n];
        seen := seen1 + {n};
      }
    }
  }

  /** In a perfect maze a set of cells closed under open steps that holds
      one cell holds every cell. */
  lemma NoClosedRegion(walls: array2<Walls>, region: set<Pos>, start: Pos, end: Pos)
    requires Maze(walls) && InGrid(walls, start) && InGrid(walls, end) && start in region
    requires forall p :: p in region ==> Explored(walls, region, p)
    ensures end in region
  {
    var root, routes :| Perfect(walls, root, routes);
    ClosedRegionReaches(walls, root, routes, region, start, end);
  }

  /** After a failed recursive call every cell marked since `base`, the
      ones marked before the call and the ones marked by it, has all its
      open neighbours marked. */
  lemma RecursionFailed(walls: array2<Walls>, base: set<Pos>, before: set<Pos>, after: set<Pos>)
    requires before <= after
    requires forall p :: p in before - base ==> Explored(walls, before, p)
    requires forall p :: p in after - before ==> Explored(walls, after, p)
    ensures forall p :: p in after - base ==> Explored(walls, after, p)
  {
    forall p | p in after - base
      ensures Explored(walls, after, p)
    {
      if p in before {
        assert Explored(walls, before, p);
      }
    }
  }

  /** The loop invariant of dfsIteratif apart from the flags: the start is
      marked, the stack is well formed, no cell has been pushed twice, every
      marked cell is explored or still pending, and the end is pending once
      it is marked. */
  ghost predicate Searched(walls: array2<Walls>, stack: seq<Entry>, pending: seq<Pos>, pushed: seq<Pos>,
                           seen: set<Pos>, start: Pos, end: Pos)
    reads walls
  {
    start in seen && seen <= AllCells(walls.Length1, walls.Length0) && Stacked(walls, stack, pending, start, seen) &&
    Distinct(pushed) && (forall k :: 0 <= k < |pushed| ==> pushed[k] in seen) &&
    (forall p :: p in seen ==> Explored(walls, seen, p) || p in pending) && (end in seen ==> end in pending)
  }

  /** Popping the top entry leaves what the inner loop of dfsIteratif needs:
      the entry's path runs from start to its cell and the rest of the stack
      is well formed. */
  lemma Popped(walls: array2<Walls>, stack: seq<Entry>, pending: seq<Pos>, pushed: seq<Pos>, seen: set<Pos>,
               start: Pos, end: Pos)
    requires Searched(walls, stack, pending, pushed, seen, start, end) && |stack| > 0
    ensures seen <= AllCells(walls.Length1, walls.Length0)
    ensures PathTo(walls, stack[|stack| - 1], start, seen)
    ensures Stacked(walls, stack[..|stack| - 1], pending[..|pending| - 1], start, seen)
    ensures Distinct(pushed) && forall k :: 0 <= k < |pushed| ==> pushed[k] in seen
  {
    StackTop(walls, stack, pending, start, seen);
  }

  /** One iteration of dfsIteratif's while loop that pops an entry other than
      the end and pushes its unmarked open neighbours keeps the invariant. */
  lemma Advanced(walls: array2<Walls>, stack0: seq<Entry>, pending0: seq<Pos>, pushed0: seq<Pos>, seen0: set<Pos>,
                 start: Pos, end: Pos, e: Entry, stack: seq<Entry>, pending: seq<Pos>, pushed: seq<Pos>, seen: set<Pos>)
    requires Searched(walls, stack0, pending0, pushed0, seen0, start, end) && |stack0| > 0
    requires e == stack0[|stack0| - 1] && e.cell != end
    requires seen0 <= seen <= AllCells(walls.Length1, walls.Length0)
    requires Stacked(walls, stack, pending, start, seen)
    requires Distinct(pushed) && forall k :: 0 <= k < |pushed| ==> pushed[k] in seen
    requires Explored(walls, seen, e.cell)
    requires forall p :: p in pending0[..|pending0| - 1] || p in seen - seen0 ==> p in pending
    ensures Searched(walls, stack, pending, pushed, seen, start, end)
  {
    assert pending0[|pending0| - 1] == e.cell;
    FrontierKept(walls, seen0, pending0, pending0[..|pending0| - 1], seen, pending, e.cell, end);
  }

  /** Popping `cell` from the pending cells and marking all its open
      neighbours keeps every marked cell either explored or still pending,
      and keeps the end pending once it is marked. */
  lemma FrontierKept(walls: array2<Walls>, seen0: set<Pos>, pending0: seq<Pos>, popped: seq<Pos>,
                     seen: set<Pos>, pending: seq<Pos>, cell: Pos, end: Pos)
    requires |pending0| > 0 && popped == pending0[..|pending0| - 1] && pending0[|pending0| - 1] == cell
    requires cell != end && seen0 <= seen
    requires forall p :: p in seen0 ==> Explored(walls, seen0, p) || p in pending0
    requires end in seen0 ==> end in pending0
    requires Explored(walls, seen, cell)
    requires forall p :: p in popped || p in seen - seen0 ==> p in pending
    ensures forall p :: p in seen ==> Explored(walls, seen, p) || p in pending
    ensures end in seen ==> end in pending
  {
    forall p | p in seen
      ensures Explored(walls, seen, p) || p in pending
    {
      if p in seen0 && p !in pending0 {
        assert Explored(walls, seen0, p);
      } else if p in pending0 && p != cell {
        var k :| 0 <= k < |pending0| && pending0[k] == p;
        assert popped[k] == p;
      }
    }
  }

  /** How one pass of dfsIteratif's inner loop has changed its state, where
      `q` are the cells pushed so far: the old entries stay at the bottom of
      the stack, each new entry holds a pushed cell and the popped entry's
      path extended by it, and exactly the pushed cells are added to the
      pending cells, to the push history and to the marked cells. */
  ghost predicate Along(e: Entry, stack0: seq<Entry>, pending0: seq<Pos>, pushed0: seq<Pos>, seen0: set<Pos>,
                        q: seq<Pos>, stack: seq<Entry>, pending: seq<Pos>, pushed: seq<Pos>, seen: set<Pos>)
  {
    |pending0| == |stack0| && |stack| == |stack0| + |q| && stack[..|stack0|] == stack0 &&
    pending == pending0 + q && pushed == pushed0 + q && (forall x {:trigger x in seen} :: x in seen <==> x in seen0 || x in q) &&
    forall k :: |stack0| <= k < |stack| ==> stack[k] == Entry(pending[k], e.path + [pending[k]])
  }

  /** Pushing one more cell extends the pass. */
  lemma AlongPush(e: Entry, stack0: seq<Entry>, pending0: seq<Pos>, pushed0: seq<Pos>, seen0: set<Pos>,
                  q: seq<Pos>, stack: seq<Entry>, pending: seq<Pos>, pushed: seq<Pos>, seen: set<Pos>, n: Pos)
    requires Along(e, stack0, pending0, pushed0, seen0, q, stack, pending, pushed, seen)
    ensures Along(e, stack0, pending0, pushed0, seen0, q + [n], stack + [Entry(n, e.path + [n])],
                  pending + [n], pushed + [n], seen + {n})
  {
    var stack' := stack + [Entry(n, e.path + [n])];
    var pending' := pending + [n];
    assert stack'[..|stack0|] == stack[..|stack0|];
    forall k | |stack0| <= k < |stack'|
      ensures stack'[k] == Entry(pending'[k], e.path + [pending'[k]])
    {
      if k < |stack| {
        assert stack'[k] == stack[k] && pending'[k] == pending[k];
      }
    }
  }

  /** What a finished pass over the open neighbours of the popped cell
      leaves: every open neighbour is marked, the push history stays free of
      repeats, every newly marked cell is pending, and either nothing
      changed or fewer cells are unmarked. */
  lemma PassDone(walls: array2<Walls>, e: Entry, stack0: seq<Entry>, pending0: seq<Pos>, pushed0: seq<Pos>,
                 seen0: set<Pos>, ns: seq<Pos>, stack: seq<Entry>, pending: seq<Pos>, pushed: seq<Pos>, seen: set<Pos>)
    requires forall n :: n in ns <==> OpenStep(walls, e.cell, n)
    requires Along(e, stack0, pending0, pushed0, seen0, Pushes(ns, seen0), stack, pending, pushed, seen)
    requires Distinct(pushed0) && forall k :: 0 <= k < |pushed0| ==> pushed0[k] in seen0
    requires seen <= AllCells(walls.Length1, walls.Length0)
    ensures (seen == seen0 && |stack| == |stack0|) ||
            AllCells(walls.Length1, walls.Length0) - seen < AllCells(walls.Length1, walls.Length0) - seen0
    ensures Distinct(pushed) && forall k :: 0 <= k < |pushed| ==> pushed[k] in seen
    ensures Explored(walls, seen, e.cell)
    ensures forall p :: p in pending0 || p in seen - seen0 ==> p in pending
  {
    var q := Pushes(ns, seen0);
    PushesExact(ns, seen0);
    if q != [] {
      assert q[0] in AllCells(walls.Length1, walls.Length0) - seen0 && q[0] !in AllCells(walls.Length1, walls.Length0) - seen;
    }
    forall i, j | 0 <= i < j < |pushed|
      ensures pushed[i] != pushed[j]
    {
      if j < |pushed0| {
        assert pushed[i] == pushed0[i] && pushed[j] == pushed0[j];
      } else if i < |pushed0| {
        assert pushed[i] == pushed0[i] && pushed[j] == q[j - |pushed0|];
      } else {
        assert pushed[i] == q[i - |pushed0|] && pushed[j] == q[j - |pushed0|];
      }
    }
    forall k | 0 <= k < |pushed|
      ensures pushed[k] in seen
    {
      if k < |pushed0| {
        assert pushed[k] == pushed0[k];
      } else {
        assert pushed[k] == q[k - |pushed0|];
      }
    }
    forall p | p in pending0 || p in seen - seen0
      ensures p in pending
    {
      if p in pending0 {
        var k :| 0 <= k < |pending0| && pending0[k] == p;
        assert pending[k] == p;
      } else {
        var k :| 0 <= k < |q| && q[k] == p;
        assert pending[|pending0| + k] == p;
      }
    }
  }

  /** The cells one pass of dfsIteratif's inner loop pushes when it scans
      `ns` in order with `seen` marked beforehand: a cell is pushed when it
      is neither marked beforehand nor pushed earlier in the pass. */
  ghost function Pushes(ns: seq<Pos>, seen: set<Pos>): seq<Pos>
    decreases |ns|
  {
    if ns == [] then []
    else
      var p := Pushes(ns[..|ns| - 1], seen);
      if ns[|ns| - 1] in seen || ns[|ns| - 1] in p then p else p + [ns[|ns| - 1]]
  }

  /** Scanning one more cell of `ns`, with `marked` the cells marked
      beforehand and those pushed so far: the cell is pushed iff it is not
      marked. */
  lemma PushesStep(ns: seq<Pos>, i: int, seen: set<Pos>, marked: set<Pos>)
    requires 0 <= i < |ns| && (ns[i] in marked <==> ns[i] in seen || ns[i] in Pushes(ns[..i], seen))
    ensures Pushes(ns[..i + 1], seen) ==
      if ns[i] in marked then Pushes(ns[..i], seen) else Pushes(ns[..i], seen) + [ns[i]]
  {
    assert ns[..i + 1][..i] == ns[..i];
  }

  /** A pass pushes exactly the scanned cells not marked beforehand, each
      once. */
  lemma {:induction false} PushesExact(ns: seq<Pos>, seen: set<Pos>)
    ensures forall x :: x in Pushes(ns, seen) <==> x in ns && x !in seen
    ensures Distinct(Pushes(ns, seen))
    decreases |ns|
  {
    if ns != [] {
      var init := ns[..|ns| - 1];
      PushesExact(init, seen);
      assert ns == init + [ns[|ns| - 1]];
      var p := Pushes(init, seen);
      if !(ns[|ns| - 1] in seen || ns[|ns| - 1] in p) {
        var q := p + [ns[|ns| - 1]];
        forall i, j | 0 <= i < j < |q|
          ensures q[i] != q[j]
        {
          if j < |p| {
            assert q[i] == p[i] && q[j] == p[j];
          } else {
            assert q[i] == p[i] && p[i] in p;
          }
        }
      }
    }
  }

  /** A pass over neighbours listed in the order top, right, bottom, left
      pushes them in that order. */
  lemma {:induction false} PushesOrdered(c: Pos, ns: seq<Pos>, seen: set<Pos>)
    requires Ordered(c, ns)
    ensures Ordered(c, Pushes(ns, seen))
    decreases |ns|
  {
    if ns != [] {
      var init := ns[..|ns| - 1];
      var last := ns[|ns| - 1];
      assert Ordered(c, init) by {
        forall i, j | 0 <= i < j < |init|
          ensures Adjacent(c, init[i]) && Adjacent(c, init[j]) && Rank(DirTo(c, init[i])) < Rank(DirTo(c, init[j]))
        {
          assert init[i] == ns[i] && init[j] == ns[j];
        }
      }
      PushesOrdered(c, init, seen);
      PushesExact(init, seen);
      var p := Pushes(init, seen);
      if !(last in seen || last in p) {
        var q := p + [last];
        forall x | x in p
          ensures Adjacent(c, x) && Rank(DirTo(c, x)) < Rank(DirTo(c, last))
        {
          var k :| 0 <= k < |init| && init[k] == x;
          assert ns[k] == x;
        }
        forall i, j | 0 <= i < j < |q|
          ensures Adjacent(c, q[i]) && Adjacent(c, q[j]) && Rank(DirTo(c, q[i])) < Rank(DirTo(c, q[j]))
        {
          assert q[i] == p[i];
          if j < |p| {
            assert q[j] == p[j];
          } else {
            assert p[i] in p;
          }
        }
      }
    }
  }

  /** The iterative solver's stack: `pending` lists the entries' cells, which
      are distinct and marked, and each entry's path is a walk without repeats
      from `start` to its cell through marked cells. */
  ghost predicate Stacked(walls: array2<Walls>, stack: seq<Entry>, pending: seq<Pos>, start: Pos, seen: set<Pos>)
    reads walls
  {
    |pending| == |stack| && Distinct(pending) &&
    (forall k :: 0 <= k < |stack| ==> pending[k] == stack[k].cell && pending[k] in seen) &&
    forall k :: 0 <= k < |stack| ==> PathTo(walls, stack[k], start, seen)
  }

  ghost predicate PathTo(walls: array2<Walls>, e: Entry, start: Pos, seen: set<Pos>)
    reads walls
  {
    |e.path| > 0 && e.path[0] == start && e.path[|e.path| - 1] == e.cell && Walk(walls, e.path) &&
    forall j :: 0 <= j < |e.path| ==> e.path[j] in seen
  }

  /** Popping keeps the rest of the stack well formed and yields a well-formed entry. */
  lemma StackTop(walls: array2<Walls>, stack: seq<Entry>, pending: seq<Pos>, start: Pos, seen: set<Pos>)
    requires Stacked(walls, stack, pending, start, seen) && |stack| > 0
    ensures PathTo(walls, stack[|stack| - 1], start, seen)
    ensures Stacked(walls, stack[..|stack| - 1], pending[..|pending| - 1], start, seen)
  {
  }

  /** Pushing a freshly marked open neighbour of a popped entry's cell. */
  lemma PushEntry(walls: array2<Walls>, stack: seq<Entry>, pending: seq<Pos>, start: Pos, seen: set<Pos>,
                  e: Entry, n: Pos)
    requires Stacked(walls, stack, pending, start, seen) && PathTo(walls, e, start, seen)
    requires OpenStep(walls, e.cell, n) && n !in seen
    ensures Stacked(walls, stack + [Entry(n, e.path + [n])], pending + [n], start, seen + {n})
  {
    WalkExtend(walls, e.path, n, seen);
    var stack', pending' := stack + [Entry(n, e.path + [n])], pending + [n];
    forall k | 0 <= k < |stack'|
      ensures pending'[k] == stack'[k].cell && pending'[k] in seen + {n}
      ensures PathTo(walls, stack'[k], start, seen + {n})
    {
      if k < |stack| {
        assert stack'[k] == stack[k] && pending'[k] == pending[k];
      }
    }
    forall i, j | 0 <= i < j < |pending'|
      ensures pending'[i] != pending'[j]
    {
      if j < |pending| {
        assert pending'[i] == pending[i] && pending'[j] == pending[j];
      } else {
        assert pending'[i] == pending[i] && pending[i] in seen;
      }
    }
  }
}
