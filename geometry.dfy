/** Grid geometry of the maze engine: cell coordinates, the four sides of a
    cell in the order the engine enumerates them, wall records, and the
    undirected passages between neighbouring cells. */
module Geometry {
  import opened Wrappers

  /** The index a random draw `r` selects among `n` choices; the engine's
      Math.floor(Math.random() * n), with the draw reduced modulo n. */
  function Below(r: nat, n: nat): (i: nat)
    requires n > 0
    ensures i < n
  {
    r % n
  }

  /** A cell coordinate. The engine keeps cell (x, y) at grid[y][x] and
      compares cells by identity, which for grid cells is equality of (x, y). */
  datatype Pos = Pos(x: int, y: int)

  /** The sides of a cell, in the neighbour order top, right, bottom, left. */
  datatype Dir = Top | Right | Bottom | Left

  /** Position of a side in the enumeration order. */
  function Rank(d: Dir): nat
  {
    match d
    case Top => 0
    case Right => 1
    case Bottom => 2
    case Left => 3
  }

  function Opposite(d: Dir): Dir
  {
    match d
    case Top => Bottom
    case Right => Left
    case Bottom => Top
    case Left => Right
  }

  /** The cell across side d (y grows downwards). */
  function Move(p: Pos, d: Dir): Pos
  {
    match d
    case Top => Pos(p.x, p.y - 1)
    case Right => Pos(p.x + 1, p.y)
    case Bottom => Pos(p.x, p.y + 1)
    case Left => Pos(p.x - 1, p.y)
  }

  predicate InBounds(p: Pos, w: int, h: int)
  {
    0 <= p.x < w && 0 <= p.y < h
  }

  /** Orthogonal adjacency. */
  predicate Adjacent(a: Pos, b: Pos)
  {
    (a.x == b.x && (b.y == a.y - 1 || b.y == a.y + 1)) ||
    (a.y == b.y && (b.x == a.x + 1 || b.x == a.x - 1))
  }

  /** The side of a that faces its neighbour b. */
  function DirTo(a: Pos, b: Pos): (d: Dir)
    requires Adjacent(a, b)
    ensures Move(a, d) == b
  {
    if b.y == a.y - 1 then Top
    else if b.x == a.x + 1 then Right
    else if b.y == a.y + 1 then Bottom
    else Left
  }

  lemma MoveFacts(p: Pos, d: Dir)
    ensures Adjacent(p, Move(p, d)) && DirTo(p, Move(p, d)) == d
    ensures Move(Move(p, d), Opposite(d)) == p
    ensures DirTo(Move(p, d), p) == Opposite(d)
  {
  }

  /** The four wall flags of a cell; true means the wall stands. */
  datatype Walls = Walls(top: bool, right: bool, bottom: bool, left: bool)

  /** A freshly constructed cell has all four walls. */
  const Closed := Walls(true, true, true, true)

  function WallAt(w: Walls, d: Dir): bool
  {
    match d
    case Top => w.top
    case Right => w.right
    case Bottom => w.bottom
    case Left => w.left
  }

  /** Knock down side d of a wall record. */
  function Open(w: Walls, d: Dir): (r: Walls)
    ensures !WallAt(r, d)
    ensures forall e :: e != d ==> WallAt(r, e) == WallAt(w, e)
  {
    match d
    case Top => w.(top := false)
    case Right => w.(right := false)
    case Bottom => w.(bottom := false)
    case Left => w.(left := false)
  }

  /** The side that removeWall opens on `current`: it tests dx = 1, dx = -1,
      dy = 1, dy = -1 in that order and does nothing when none holds. */
  function CarveDir(current: Pos, next: Pos): Option<Dir>
  {
    var dx, dy := next.x - current.x, next.y - current.y;
    if dx == 1 then Some(Right)
    else if dx == -1 then Some(Left)
    else if dy == 1 then Some(Bottom)
    else if dy == -1 then Some(Top)
    else None
  }

  /** The wall record of cell p after removeWall(current, next). */
  function Carved(w: Walls, p: Pos, current: Pos, next: Pos): Walls
  {
    match CarveDir(current, next)
    case None => w
    case Some(d) =>
      if p == current then Open(w, d)
      else if p == next then Open(w, Opposite(d))
      else w
  }

  /** Every wall record of a grid after removeWall(current, next). */
  function CarvedView(v: map<Pos, Walls>, current: Pos, next: Pos): (r: map<Pos, Walls>)
    ensures r.Keys == v.Keys
  {
    map p | p in v :: Carved(v[p], p, current, next)
  }

  /** For orthogonal neighbours removeWall clears exactly the facing pair:
      the side of `current` toward `next` and the side of `next` toward
      `current`; every other flag of the two cells, and every other cell,
      keeps its walls. */
  lemma RemoveWallOpensFacingPair(current: Pos, next: Pos, wc: Walls, wn: Walls, p: Pos, w: Walls, e: Dir)
    requires Adjacent(current, next)
    ensures WallAt(Carved(wc, current, current, next), e) == (e != DirTo(current, next) && WallAt(wc, e))
    ensures WallAt(Carved(wn, next, current, next), e) == (e != DirTo(next, current) && WallAt(wn, e))
    ensures p != current && p != next ==> Carved(w, p, current, next) == w
  {
  }

  /** The one-cell list [Move(c, d)] when `keep` holds, else the empty list. */
  function Pick(c: Pos, d: Dir, keep: bool): seq<Pos>
  {
    if keep then [Move(c, d)] else []
  }

  /** The neighbours of c listed strictly in the order top, right, bottom, left. */
  ghost predicate Ordered(c: Pos, s: seq<Pos>)
  {
    (forall n :: n in s ==> Adjacent(c, n)) &&
    forall i, j :: 0 <= i < j < |s| ==>
      Adjacent(c, s[i]) && Adjacent(c, s[j]) && Rank(DirTo(c, s[i])) < Rank(DirTo(c, s[j]))
  }

  lemma PickBefore(c: Pos, d: Dir, keep: bool, rest: seq<Pos>)
    requires Ordered(c, rest)
    requires forall n :: n in rest ==> Rank(d) < Rank(DirTo(c, n))
    ensures Ordered(c, Pick(c, d, keep) + rest)
  {
    MoveFacts(c, d);
    var s := Pick(c, d, keep) + rest;
    if keep {
      forall i, j | 0 <= i < j < |s|
        ensures Adjacent(c, s[i]) && Adjacent(c, s[j]) && Rank(DirTo(c, s[i])) < Rank(DirTo(c, s[j]))
      {
        assert s[j] == rest[j - 1];
        if i > 0 {
          assert s[i] == rest[i - 1];
        }
      }
    } else {
      assert s == rest;
    }
  }

  /** Whether a neighbour-listing keeps side d, given one flag per side. */
  function Chosen(d: Dir, top: bool, right: bool, bottom: bool, left: bool): bool
  {
    match d
    case Top => top
    case Right => right
    case Bottom => bottom
    case Left => left
  }

  /** The neighbours of c across the chosen sides, in the order top, right,
      bottom, left: the shape shared by both neighbour queries. */
  function Gather(c: Pos, top: bool, right: bool, bottom: bool, left: bool): (ns: seq<Pos>)
    ensures Ordered(c, ns)
    ensures forall n :: n in ns <==> Adjacent(c, n) && Chosen(DirTo(c, n), top, right, bottom, left)
  {
    var bl := Pick(c, Bottom, bottom) + Pick(c, Left, left);
    PickBefore(c, Bottom, bottom, Pick(c, Left, left));
    var rbl := Pick(c, Right, right) + bl;
    PickBefore(c, Right, right, bl);
    var ns := Pick(c, Top, top) + rbl;
    PickBefore(c, Top, top, rbl);
    GatherMembers(c, top, right, bottom, left);
    ns
  }

  lemma GatherMembers(c: Pos, top: bool, right: bool, bottom: bool, left: bool)
    ensures forall n :: n in Pick(c, Top, top) + (Pick(c, Right, right) + (Pick(c, Bottom, bottom) + Pick(c, Left, left)))
                        <==> Adjacent(c, n) && Chosen(DirTo(c, n), top, right, bottom, left)
  {
    forall n
      ensures n in Pick(c, Top, top) + (Pick(c, Right, right) + (Pick(c, Bottom, bottom) + Pick(c, Left, left)))
              <==> Adjacent(c, n) && Chosen(DirTo(c, n), top, right, bottom, left)
    {
      MoveFacts(c, Top);
      MoveFacts(c, Right);
      MoveFacts(c, Bottom);
      MoveFacts(c, Left);
    }
  }

  /** An undirected passage, named by its upper-left cell and whether it
      leads right (horizontal) or down. */
  datatype Passage = Passage(from: Pos, horizontal: bool)

  /** The side a passage leaves its `from` cell by. */
  function Heading(horizontal: bool): Dir
  {
    if horizontal then Right else Bottom
  }

  /** The passage behind side d of cell p. */
  function Key(p: Pos, d: Dir): Passage
  {
    match d
    case Right => Passage(p, true)
    case Bottom => Passage(p, false)
    case Left => Passage(Move(p, Left), true)
    case Top => Passage(Move(p, Top), false)
  }

  /** Both cells of a passage name it by the sides that face each other. */
  lemma KeyShared(p: Pos, d: Dir)
    ensures Key(Move(p, d), Opposite(d)) == Key(p, d)
    ensures Key(p, d).from == p || Key(p, d).from == Move(p, d)
    ensures Move(Key(p, d).from, Heading(Key(p, d).horizontal)) == p ||
            Move(Key(p, d).from, Heading(Key(p, d).horizontal)) == Move(p, d)
    ensures Key(p, d).from != Move(Key(p, d).from, Heading(Key(p, d).horizontal))
  {
  }

  /** A passage is named by exactly two (cell, side) pairs. */
  lemma KeyInjective(p: Pos, d: Dir, q: Pos, e: Dir)
    requires Key(p, d) == Key(q, e)
    ensures (q == p && e == d) || (q == Move(p, d) && e == Opposite(d))
  {
  }

  /** Every cell of a w x h grid. */
  function AllCells(w: int, h: int): (cells: set<Pos>)
    ensures forall p :: p in cells <==> InBounds(p, w, h)
  {
    var cells := set x, y | 0 <= x < w && 0 <= y < h :: Pos(x, y);
    assert forall p: Pos :: InBounds(p, w, h) ==> p == Pos(p.x, p.y);
    cells
  }

  function Row(w: int, y: int): (cells: set<Pos>)
    ensures forall p :: p in cells <==> 0 <= p.x < w && p.y == y
  {
    var cells := set x | 0 <= x < w :: Pos(x, y);
    assert forall p: Pos :: 0 <= p.x < w && p.y == y ==> p == Pos(p.x, y);
    cells
  }

  lemma {:induction false} RowSize(w: nat, y: int)
    ensures |Row(w, y)| == w
  {
    if w > 0 {
      RowSize(w - 1, y);
      assert Row(w, y) == Row(w - 1, y) + {Pos(w - 1, y)};
    }
  }

  /** A w x h grid has w * h cells. */
  lemma {:induction false} AllCellsSize(w: nat, h: nat)
    ensures |AllCells(w, h)| == w * h
  {
    if h > 0 {
      AllCellsSize(w, h - 1);
      RowSize(w, h - 1);
      LastRowSplit(w, h);
      assert w * (h - 1) + w == w * h;
    }
  }

  /** The cells of a grid are those of the grid one row shorter plus the
      last row, which is disjoint from them. */
  lemma LastRowSplit(w: nat, h: nat)
    requires h > 0
    ensures |AllCells(w, h)| == |AllCells(w, h - 1)| + |Row(w, h - 1)|
  {
    var upper, last := AllCells(w, h - 1), Row(w, h - 1);
    assert AllCells(w, h) == upper + last;
    assert upper !! last;
  }

  /** A set that holds q and is closed under stepping to in-bounds
      neighbours holds every cell of the grid: the grid graph is connected. */
  lemma {:induction false} ClosedSetReaches(w: int, h: int, cells: set<Pos>, q: Pos, p: Pos)
    requires InBounds(q, w, h) && q in cells && InBounds(p, w, h)
    requires forall c, d :: c in cells && InBounds(Move(c, d), w, h) ==> Move(c, d) in cells
    ensures p in cells
    decreases (if q.x < p.x then p.x - q.x else q.x - p.x) + (if q.y < p.y then p.y - q.y else q.y - p.y)
  {
    if q.x < p.x {
      ClosedSetReaches(w, h, cells, Move(q, Right), p);
    } else if q.x > p.x {
      ClosedSetReaches(w, h, cells, Move(q, Left), p);
    } else if q.y < p.y {
      ClosedSetReaches(w, h, cells, Move(q, Bottom), p);
    } else if q.y > p.y {
      ClosedSetReaches(w, h, cells, Move(q, Top), p);
    }
  }

  lemma ClosedSetCoversGrid(w: int, h: int, cells: set<Pos>, q: Pos)
    requires InBounds(q, w, h) && q in cells
    requires forall c, d :: c in cells && InBounds(Move(c, d), w, h) ==> Move(c, d) in cells
    ensures AllCells(w, h) <= cells
  {
    forall p | p in AllCells(w, h)
      ensures p in cells
    {
      ClosedSetReaches(w, h, cells, q, p);
    }
  }
}
