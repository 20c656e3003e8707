/** Randomized depth-first carving: the while loop of buatLabirin. */
module Carving {
  import opened Wrappers
  import opened Geometry
  import opened Grid

  /** The wall records agree with a set of passages: between two cells of
      `v` a wall is down exactly when its passage is in `passages`. */
  // The same as Tracks, stated over the wall records as a map value so that
  // proofs about one carving step need no reasoning about the heap.
  ghost predicate TracksView(v: map<Pos, Walls>, passages: set<Passage>)
  {
    forall p, d :: p in v && Move(p, d) in v ==> (!WallAt(v[p], d) <==> Key(p, d) in passages)
  }

  /** A wall stands on every side that faces out of the grid. */
  // Grid.Enclosed over the wall records as a map value, for the same reason.
  ghost predicate EnclosedView(v: map<Pos, Walls>)
  {
    forall p, d :: p in v && Move(p, d) !in v ==> WallAt(v[p], d)
  }

  /** A walk through grid cells whose every step crosses a passage of the set. */
  ghost predicate ChainIn(passages: set<Passage>, s: seq<Pos>, w: int, h: int)
  {
    (forall i :: 0 <= i < |s| ==> InBounds(s[i], w, h)) &&
    forall i, j {:trigger s[i], s[j]} :: 0 <= i && j == i + 1 && j < |s| ==>
      Adjacent(s[i], s[j]) && Key(s[i], DirTo(s[i], s[j])) in passages
  }

  /** Consecutive cells of s are neighbours joined by a carved passage. */
  // ChainIn again, by recursion on the last step: the stack invariant grows
  // and shrinks at the top, and this form keeps those proofs cheap.
  ghost predicate Linked(passages: set<Passage>, s: seq<Pos>)
    decreases |s|
  {
    |s| <= 1 ||
    (Linked(passages, s[..|s| - 1]) && Adjacent(s[|s| - 2], s[|s| - 1]) &&
     Key(s[|s| - 2], DirTo(s[|s| - 2], s[|s| - 1])) in passages)
  }

  /** The ghost record of a carving run: the cells seen so far, the carved
      passages, the wall records as a value, and the carving tree (each seen
      cell other than the first was carved from its `parent`, whose `depth` is
      smaller). */
  datatype Trace = Trace(seen: set<Pos>, passages: set<Passage>, view: map<Pos, Walls>,
                         parent: map<Pos, Pos>, depth: map<Pos, nat>)

  /** Each carved passage joins two seen cells, and there is one fewer
      passage than seen cells. */
  ghost predicate PassagesIn(seen: set<Pos>, passages: set<Passage>)
  {
    (forall k :: k in passages ==> k.from in seen && Move(k.from, Heading(k.horizontal)) in seen) &&
    |passages| + 1 == |seen|
  }

  /** Every neighbour of a seen cell that has left the stack is seen. */
  ghost predicate ClosedOff(w: int, h: int, seen: set<Pos>, stack: seq<Pos>)
  {
    forall p, d :: p in seen && p !in stack && InBounds(Move(p, d), w, h) ==> Move(p, d) in seen
  }

  /** Every seen cell but `root` hangs by a carved passage from a seen parent
      of smaller depth. */
  ghost predicate TreeIn(t: Trace, root: Pos)
  {
    t.depth.Keys == t.seen &&
    (forall p :: p in t.parent <==> p in t.seen && p != root) &&
    forall p :: p in t.parent ==>
      t.parent[p] in t.seen && Adjacent(t.parent[p], p) &&
      Key(t.parent[p], DirTo(t.parent[p], p)) in t.passages && t.depth[t.parent[p]] < t.depth[p]
  }

  /** The value-level invariant of the carving loop: among others, every
      stacked cell is seen and consecutive stack entries are neighbours
      joined by a carved passage. */
  ghost predicate CarveState(w: int, h: int, stack: seq<Pos>, root: Pos, t: Trace)
  {
    t.seen <= AllCells(w, h) && root in t.seen &&
    (forall i :: 0 <= i < |stack| ==> stack[i] in t.seen) && Linked(t.passages, stack) &&
    PassagesIn(t.seen, t.passages) &&
    ClosedOff(w, h, t.seen, stack) &&
    TreeIn(t, root) &&
    t.view.Keys == AllCells(w, h) && TracksView(t.view, t.passages) && EnclosedView(t.view)
  }

  /** The invariant of the carving loop over the grid, the stack and the trace. */
  ghost predicate CarveInv(walls: array2<Walls>, visited: array2<bool>, stack: seq<Pos>, root: Pos, t: Trace)
    reads walls, visited
  {
    SameShape(walls, visited) &&
    CarveState(walls.Length1, walls.Length0, stack, root, t) &&
    Records(visited, t.seen) && Mirrors(walls, t.view)
  }

  /** The carving loop. Draw 0 and draw 1 of `rng` pick the starting column
      and row, draw k + 2 picks among the unvisited neighbours at the k-th
      carving step; each draw is reduced modulo its range. On return every
      cell is visited, the open walls are symmetric and connect every cell
      to `root` (the ghost `routes` are witness walks), exactly
      width * height - 1 passages are open and the outer rim is intact. */
  method Carve(walls: array2<Walls>, visited: array2<bool>, rng: nat -> nat)
    returns (ghost root: Pos, ghost routes: map<Pos, seq<Pos>>)
    requires SameShape(walls, visited) && walls.Length0 >= 1 && walls.Length1 >= 1
    requires forall y, x :: 0 <= y < walls.Length0 && 0 <= x < walls.Length1 ==> walls[y, x] == Closed
    requires Cleared(visited)
    modifies walls, visited
    ensures forall y, x :: 0 <= y < visited.Length0 && 0 <= x < visited.Length1 ==> visited[y, x]
    ensures Perfect(walls, root, routes)
  {
    var width, height := walls.Length1, walls.Length0;
    var start := Pos(Below(rng(0), width), Below(rng(1), height));
    ghost var t := StartTrace(walls, start);
    ClearedRecords(visited);
    Mark(visited, start, {});
    var stack := [start];
    root := start;
    t := CarveLoop(walls, visited, stack, root, t, rng, 2);
    routes := CarveFinish(walls, root, t);
    AllRecorded(visited, t.seen);
  }

  /** The while loop of the carving: from a stack holding the start cell,
      carve while the stack is not empty; `draw` is the next unused draw. */
  method CarveLoop(walls: array2<Walls>, visited: array2<bool>, stack0: seq<Pos>, ghost root: Pos,
                   ghost t0: Trace, rng: nat -> nat, draw0: nat) returns (ghost t: Trace)
    requires CarveInv(walls, visited, stack0, root, t0)
    modifies walls, visited
    ensures CarveState(walls.Length1, walls.Length0, [], root, t)
    ensures Records(visited, t.seen) && Mirrors(walls, t.view)
  {
    var width, height := walls.Length1, walls.Length0;
    var stack, draw := stack0, draw0;
    t := t0;
    while |stack| > 0
      invariant CarveInv(walls, visited, stack, root, t)
      decreases AllCells(width, height) - t.seen, |stack|
    {
      var current := stack[|stack| - 1];
      var neighbors := UnvisitedNeighbors(visited, current);
      if |neighbors| > 0 {
        var next := neighbors[Below(rng(draw), |neighbors|)];
        draw := draw + 1;
        assert InGrid(visited, next) && Adjacent(current, next) && !visited[next.y, next.x];
        ghost var t' := PushTrace(width, height, stack, root, t, next);
        CarveTowards(walls, visited, current, next, t.view, t.seen);
        stack := stack + [next];
        t := t';
      } else {
        Exhausted(visited, t.seen, current);
        PopState(width, height, stack, current, root, t);
        stack := stack[..|stack| - 1];
      }
    }
  }

  /** The trace before the first step: one cell seen, nothing carved. */
  ghost function StartTrace(walls: array2<Walls>, start: Pos): (t: Trace)
    reads walls
    requires forall y, x :: 0 <= y < walls.Length0 && 0 <= x < walls.Length1 ==> walls[y, x] == Closed
    requires InGrid(walls, start)
    ensures t.seen == {start}
    ensures CarveState(walls.Length1, walls.Length0, [start], start, t) && Mirrors(walls, t.view)
  {
    var view := map p | p in AllCells(walls.Length1, walls.Length0) :: Closed;
    ClosedGrid(view);
    Trace({start}, {}, view, map[], map[start := 0])
  }

  /** A grid of closed cells tracks the empty passage set and is enclosed. */
  lemma ClosedGrid(view: map<Pos, Walls>)
    requires forall p :: p in view ==> view[p] == Closed
    ensures TracksView(view, {}) && EnclosedView(view)
  {
  }

  /** The trace after carving from the top of the stack to `next`. */
  ghost function PushTrace(w: int, h: int, stack: seq<Pos>, root: Pos, t: Trace, next: Pos): (t': Trace)
    requires CarveState(w, h, stack, root, t)
    requires |stack| > 0 && Adjacent(stack[|stack| - 1], next)
    requires InBounds(next, w, h) && next !in t.seen
    ensures t'.seen == t.seen + {next}
    ensures t'.view == CarvedView(t.view, stack[|stack| - 1], next)
    ensures CarveState(w, h, stack + [next], root, t')
  {
    var current := stack[|stack| - 1];
    var k := Key(current, DirTo(current, next));
    var t' := Trace(t.seen + {next}, t.passages + {k}, CarvedView(t.view, current, next),
                    t.parent[next := current], t.depth[next := t.depth[current] + 1]);
    assert current in t.view && next in AllCells(w, h);
    CarveStep(t.view, t.passages, current, next);
    PushPassages(t.seen, t.passages, current, next);
    PushTree(t, root, current, next);
    PushStack(w, h, stack, t.seen, next);
    LinkedGrow(t.passages, k, stack);
    assert (stack + [next])[..|stack|] == stack;
    t'
  }

  /** The two statements of a carving step: removeWall(current, next), then
      marking `next` visited. The wall records follow CarvedView and the
      visited flags gain `next`. */
  method CarveTowards(walls: array2<Walls>, visited: array2<bool>, current: Pos, next: Pos,
                      ghost view: map<Pos, Walls>, ghost seen: set<Pos>)
    requires SameShape(walls, visited) && InGrid(walls, current) && InGrid(walls, next)
    requires Mirrors(walls, view) && Records(visited, seen)
    modifies walls, visited
    ensures Mirrors(walls, CarvedView(view, current, next)) && Records(visited, seen + {next})
  {
    RemoveWall(walls, current, next);
    Mark(visited, next, seen);
  }

  /** One removeWall between neighbours keeps the wall records in step with
      the passage set grown by their passage, and keeps the rim intact. */
  lemma CarveStep(v: map<Pos, Walls>, passages: set<Passage>, current: Pos, next: Pos)
    requires current in v && next in v && Adjacent(current, next)
    requires TracksView(v, passages) && EnclosedView(v)
    ensures TracksView(CarvedView(v, current, next), passages + {Key(current, DirTo(current, next))})
    ensures EnclosedView(CarvedView(v, current, next))
  {
    var u := CarvedView(v, current, next);
    var d := DirTo(current, next);
    var k := Key(current, d);
    MoveFacts(current, d);
    KeyShared(current, d);
    assert CarveDir(current, next) == Some(d);
    forall p, e | p in u && Move(p, e) in u
      ensures !WallAt(u[p], e) <==> Key(p, e) in passages + {k}
    {
      assert u[p] == Carved(v[p], p, current, next);
      if Key(p, e) == k {
        KeyInjective(current, d, p, e);
      }
    }
    forall p, e | p in u && Move(p, e) !in u
      ensures WallAt(u[p], e)
    {
      assert u[p] == Carved(v[p], p, current, next);
    }
  }

  /** Carving to an unseen neighbour adds exactly one new passage. */
  lemma PushPassages(seen: set<Pos>, passages: set<Passage>, current: Pos, next: Pos)
    requires PassagesIn(seen, passages) && current in seen && next !in seen && Adjacent(current, next)
    ensures PassagesIn(seen + {next}, passages + {Key(current, DirTo(current, next))})
  {
    var d := DirTo(current, next);
    var k := Key(current, d);
    MoveFacts(current, d);
    KeyShared(current, d);
    assert next == k.from || next == Move(k.from, Heading(k.horizontal));
    CardAdd(passages, k);
    CardAdd(seen, next);
  }

  lemma CardAdd<T>(s: set<T>, x: T)
    requires x !in s
    ensures |s + {x}| == |s| + 1
  {
  }

  /** The new cell hangs from the cell it was carved from. */
  lemma PushTree(t: Trace, root: Pos, current: Pos, next: Pos)
    requires TreeIn(t, root) && root in t.seen && current in t.seen && next !in t.seen
    requires Adjacent(current, next)
    ensures var k := Key(current, DirTo(current, next));
      TreeIn(Trace(t.seen + {next}, t.passages + {k}, t.view,
                   t.parent[next := current], t.depth[next := t.depth[current] + 1]), root)
  {
    var k := Key(current, DirTo(current, next));
    var t' := Trace(t.seen + {next}, t.passages + {k}, t.view,
                    t.parent[next := current], t.depth[next := t.depth[current] + 1]);
    forall p | p in t'.parent
      ensures t'.parent[p] in t'.seen && Adjacent(t'.parent[p], p)
      ensures Key(t'.parent[p], DirTo(t'.parent[p], p)) in t'.passages
      ensures t'.depth[t'.parent[p]] < t'.depth[p]
    {
      if p != next {
        assert t'.parent[p] == t.parent[p] && t.parent[p] != next;
      }
    }
  }

  /** Pushing a freshly seen cell keeps the stack inside the seen cells. */
  lemma PushStack(w: int, h: int, stack: seq<Pos>, seen: set<Pos>, next: Pos)
    requires forall i :: 0 <= i < |stack| ==> stack[i] in seen
    requires ClosedOff(w, h, seen, stack)
    ensures forall i :: 0 <= i < |stack + [next]| ==> (stack + [next])[i] in seen + {next}
    ensures ClosedOff(w, h, seen + {next}, stack + [next])
  {
    var stack' := stack + [next];
    forall i | 0 <= i < |stack'|
      ensures stack'[i] in seen + {next}
    {
      if i < |stack| {
        assert stack'[i] == stack[i];
      }
    }
    forall p, d | p in seen + {next} && p !in stack' && InBounds(Move(p, d), w, h)
      ensures Move(p, d) in seen + {next}
    {
      assert p in seen && p !in stack;
    }
  }

  /** A cell without unvisited neighbours has every in-bounds neighbour recorded. */
  lemma Exhausted(visited: array2<bool>, seen: set<Pos>, current: Pos)
    requires Records(visited, seen) && InGrid(visited, current)
    requires UnvisitedNeighbors(visited, current) == []
    ensures forall d :: InBounds(Move(current, d), visited.Length1, visited.Length0) ==> Move(current, d) in seen
  {
    forall d | InBounds(Move(current, d), visited.Length1, visited.Length0)
      ensures Move(current, d) in seen
    {
      MoveFacts(current, d);
      assert Move(current, d) !in UnvisitedNeighbors(visited, current);
    }
  }

  /** Backtracking once every neighbour of the top of the stack is seen. */
  lemma PopState(w: int, h: int, stack: seq<Pos>, current: Pos, root: Pos, t: Trace)
    requires CarveState(w, h, stack, root, t) && |stack| > 0 && current == stack[|stack| - 1]
    requires forall d :: InBounds(Move(current, d), w, h) ==> Move(current, d) in t.seen
    ensures CarveState(w, h, stack[..|stack| - 1], root, t)
  {
    var stack' := stack[..|stack| - 1];
    LinkedPrefix(t.passages, stack);
    forall p, d | p in t.seen && p !in stack' && InBounds(Move(p, d), w, h)
      ensures Move(p, d) in t.seen
    {
      if p in stack {
        var k :| 0 <= k < |stack| && stack[k] == p;
        assert k == |stack| - 1;
      }
    }
  }

  /** The carved walk from `root` down the tree to a seen cell. */
  ghost function Route(t: Trace, root: Pos, p: Pos): seq<Pos>
    requires TreeIn(t, root) && p in t.seen
    decreases t.depth[p]
  {
    if p in t.parent then Route(t, root, t.parent[p]) + [p] else [p]
  }

  /** A route starts at `root`, ends at its cell and crosses carved passages. */
  lemma {:induction false} RouteFacts(w: int, h: int, t: Trace, root: Pos, p: Pos)
    requires TreeIn(t, root) && p in t.seen && t.seen <= AllCells(w, h)
    ensures var r := Route(t, root, p);
      |r| > 0 && r[0] == root && r[|r| - 1] == p && ChainIn(t.passages, r, w, h)
    decreases t.depth[p]
  {
    if p in t.parent {
      var q := t.parent[p];
      RouteFacts(w, h, t, root, q);
      var s := Route(t, root, q);
      ChainExtend(t.passages, s, p, w, h);
    }
  }

  /** A carved walk extends by one step across a carved passage. */
  lemma ChainExtend(passages: set<Passage>, s: seq<Pos>, next: Pos, w: int, h: int)
    requires ChainIn(passages, s, w, h) && |s| > 0 && InBounds(next, w, h)
    requires Adjacent(s[|s| - 1], next) && Key(s[|s| - 1], DirTo(s[|s| - 1], next)) in passages
    ensures ChainIn(passages, s + [next], w, h)
  {
    var t := s + [next];
    forall i | 0 <= i < |t| - 1
      ensures Adjacent(t[i], t[i + 1]) && Key(t[i], DirTo(t[i], t[i + 1])) in passages
    {
      if i < |s| - 1 {
        assert t[i] == s[i] && t[i + 1] == s[i + 1];
      }
    }
  }

  /** A carved walk stays carved when more passages are carved. */
  lemma {:induction false} LinkedGrow(passages: set<Passage>, k: Passage, s: seq<Pos>)
    requires Linked(passages, s)
    ensures Linked(passages + {k}, s)
    decreases |s|
  {
    if |s| > 1 {
      LinkedGrow(passages, k, s[..|s| - 1]);
    }
  }

  /** Dropping the last cell of a carved walk leaves a carved walk. */
  lemma LinkedPrefix(passages: set<Passage>, s: seq<Pos>)
    requires Linked(passages, s) && |s| > 0
    ensures Linked(passages, s[..|s| - 1])
  {
  }

  /** Each consecutive pair of a carved walk is joined by a carved passage. */
  lemma {:induction false} LinkedAt(passages: set<Passage>, s: seq<Pos>, i: int)
    requires Linked(passages, s) && 0 <= i < |s| - 1
    ensures Adjacent(s[i], s[i + 1]) && Key(s[i], DirTo(s[i], s[i + 1])) in passages
    decreases |s|
  {
    if i < |s| - 2 {
      var s' := s[..|s| - 1];
      LinkedAt(passages, s', i);
      assert s'[i] == s[i] && s'[i + 1] == s[i + 1];
    }
  }

  /** Throughout carving every stacked cell is visited, and each pair of
      consecutive stack entries are neighbours with the wall between them
      down, on both sides. */
  lemma StackOpen(walls: array2<Walls>, visited: array2<bool>, stack: seq<Pos>, root: Pos, t: Trace, i: int)
    requires CarveInv(walls, visited, stack, root, t) && 0 <= i < |stack|
    ensures visited[stack[i].y, stack[i].x]
    ensures i < |stack| - 1 ==> visited[stack[i + 1].y, stack[i + 1].x]
    ensures i < |stack| - 1 ==> OpenStep(walls, stack[i], stack[i + 1]) && OpenStep(walls, stack[i + 1], stack[i])
  {
    if i < |stack| - 1 {
      LinkedAt(t.passages, stack, i);
      PassageOpen(walls, t.view, t.passages, stack[i], stack[i + 1]);
    }
  }

  /** A carved passage between two cells is an open step both ways. */
  lemma PassageOpen(walls: array2<Walls>, view: map<Pos, Walls>, passages: set<Passage>, a: Pos, b: Pos)
    requires Mirrors(walls, view) && TracksView(view, passages)
    requires InGrid(walls, a) && InGrid(walls, b) && Adjacent(a, b) && Key(a, DirTo(a, b)) in passages
    ensures OpenStep(walls, a, b) && OpenStep(walls, b, a)
  {
    var d := DirTo(a, b);
    MoveFacts(a, d);
    KeyShared(a, d);
    assert a in view && b in view;
    assert !WallAt(view[a], d);
    assert !WallAt(view[b], Opposite(d));
  }

  /** The wall flags agree with a set of passages: between two cells of the
      grid a wall is down exactly when its passage is in `passages`. */
  // TracksView over the array itself, used once the loop is done.
  ghost predicate Tracks(walls: array2<Walls>, passages: set<Passage>)
    reads walls
  {
    forall p, d :: InGrid(walls, p) && InGrid(walls, Move(p, d)) ==>
      (!WallOf(walls, p, d) <==> Key(p, d) in passages)
  }

  /** What the loop leaves behind once the stack is empty, with the route
      to every cell. */
  lemma CarveFinish(walls: array2<Walls>, root: Pos, t: Trace) returns (routes: map<Pos, seq<Pos>>)
    requires CarveState(walls.Length1, walls.Length0, [], root, t) && Mirrors(walls, t.view)
    ensures AllCells(walls.Length1, walls.Length0) <= t.seen
    ensures Symmetric(walls) && Enclosed(walls)
    ensures |OpenPassages(walls)| == walls.Length1 * walls.Length0 - 1
    ensures Connected(walls, root, routes)
  {
    var width, height := walls.Length1, walls.Length0;
    FinishTracks(walls, t.view, t.passages);
    ClosedSetCoversGrid(width, height, t.seen, root);
    FinishCount(walls, t.seen, t.passages);
    FinishSymmetric(walls, t.passages);
    routes := map p | p in t.seen :: Route(t, root, p);
    FinishConnected(walls, t, root, routes);
  }

  /** Once every grid cell is recorded, every flag is set. */
  lemma AllRecorded(visited: array2<bool>, seen: set<Pos>)
    requires Records(visited, seen) && AllCells(visited.Length1, visited.Length0) <= seen
    ensures forall y, x :: 0 <= y < visited.Length0 && 0 <= x < visited.Length1 ==> visited[y, x]
  {
    forall y, x | 0 <= y < visited.Length0 && 0 <= x < visited.Length1
      ensures visited[y, x]
    {
      assert Pos(x, y) in AllCells(visited.Length1, visited.Length0);
    }
  }

  lemma FinishTracks(walls: array2<Walls>, view: map<Pos, Walls>, passages: set<Passage>)
    requires Mirrors(walls, view) && TracksView(view, passages) && EnclosedView(view)
    ensures Tracks(walls, passages) && Enclosed(walls)
  {
    forall p, d | InGrid(walls, p) && InGrid(walls, Move(p, d))
      ensures !WallOf(walls, p, d) <==> Key(p, d) in passages
    {
      assert p in view && Move(p, d) in view && view[p] == walls[p.y, p.x];
    }
    forall p, d | InGrid(walls, p) && !InGrid(walls, Move(p, d))
      ensures WallOf(walls, p, d)
    {
      assert p in view && Move(p, d) !in view && view[p] == walls[p.y, p.x];
    }
  }

  lemma FinishCount(walls: array2<Walls>, seen: set<Pos>, passages: set<Passage>)
    requires Tracks(walls, passages) && PassagesIn(seen, passages)
    requires seen == AllCells(walls.Length1, walls.Length0)
    ensures |OpenPassages(walls)| == walls.Length1 * walls.Length0 - 1
  {
    AllCellsSize(walls.Length1, walls.Length0);
    forall k | k in passages
      ensures k in OpenPassages(walls)
    {
      KeyShared(k.from, Heading(k.horizontal));
    }
    forall k | k in OpenPassages(walls)
      ensures k in passages
    {
      assert Key(k.from, Heading(k.horizontal)) == k;
    }
    assert OpenPassages(walls) == passages;
  }

  lemma FinishSymmetric(walls: array2<Walls>, passages: set<Passage>)
    requires Tracks(walls, passages)
    ensures Symmetric(walls)
  {
    forall p, d | InGrid(walls, p) && InGrid(walls, Move(p, d))
      ensures WallOf(walls, p, d) == WallOf(walls, Move(p, d), Opposite(d))
    {
      KeyShared(p, d);
      MoveFacts(p, d);
    }
  }

  lemma FinishConnected(walls: array2<Walls>, t: Trace, root: Pos, routes: map<Pos, seq<Pos>>)
    requires Tracks(walls, t.passages) && TreeIn(t, root)
    requires t.seen == AllCells(walls.Length1, walls.Length0)
    requires routes == map p | p in t.seen :: Route(t, root, p)
    ensures Connected(walls, root, routes)
  {
    forall p | InGrid(walls, p)
      ensures p in routes && |routes[p]| > 0 && routes[p][0] == root && routes[p][|routes[p]| - 1] == p
      ensures OpenChain(walls, routes[p])
    {
      assert p in t.seen;
      RouteFacts(walls.Length1, walls.Length0, t, root, p);
      var s := routes[p];
      forall i | 0 <= i < |s| - 1
        ensures OpenStep(walls, s[i], s[i + 1])
      {
        MoveFacts(s[i], DirTo(s[i], s[i + 1]));
      }
    }
  }
}
