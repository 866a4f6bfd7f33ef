/** The grid of cells that src/maze.py builds, and the pure helpers the
    generator and the solvers share: directions, neighbours, creation and
    reset. */
module MazeGrid {
  import opened Cell

  /** `cells[i][j]` is the cell in row `i`, column `j`. */
  type Grid = seq<seq<Cell>>

  /** The search starts at the top-left cell. */
  const Start: Pos := (0, 0)

  /** The search ends at the bottom-right cell. */
  function Goal(rows: int, cols: int): Pos {
    (rows - 1, cols - 1)
  }

  predicate InBounds(rows: int, cols: int, p: Pos) {
    0 <= p.0 < rows && 0 <= p.1 < cols
  }

  /** `g` has `rows` rows of `cols` cells, each with its four walls. */
  predicate WellFormed(g: Grid, rows: int, cols: int) {
    && |g| == rows
    && (forall i | 0 <= i < rows :: |g[i]| == cols)
    && (forall i, j | 0 <= i < rows && 0 <= j < cols :: HasAllWalls(g[i][j]))
  }

  function At(g: Grid, p: Pos): Cell
    requires 0 <= p.0 < |g| && 0 <= p.1 < |g[p.0]|
  {
    g[p.0][p.1]
  }

  /** `g` with the cell at `p` replaced by `c`. */
  function Update(g: Grid, p: Pos, c: Cell): (r: Grid)
    requires 0 <= p.0 < |g| && 0 <= p.1 < |g[p.0]|
    ensures |r| == |g| && forall i | 0 <= i < |g| :: |r[i]| == |g[i]|
    ensures forall i, j | 0 <= i < |g| && 0 <= j < |g[i]| ::
              r[i][j] == if (i, j) == p then c else g[i][j]
  {
    g[p.0 := g[p.0][p.1 := c]]
  }

  lemma UpdateKeepsShape(g: Grid, rows: int, cols: int, p: Pos, c: Cell)
    requires WellFormed(g, rows, cols) && InBounds(rows, cols, p) && HasAllWalls(c)
    ensures WellFormed(Update(g, p, c), rows, cols)
  {
  }

  /** opposite_direction: the direction pointing back. */
  function Opposite(d: Direction): (r: Direction)
    ensures r != d
    ensures {d, r} == {Up, Down} || {d, r} == {Left, Right}
  {
    match d
    case Up => Down
    case Down => Up
    case Left => Right
    case Right => Left
  }

  lemma OppositeInvolution(d: Direction)
    ensures Opposite(Opposite(d)) == d
  {
  }

  /** __get_neighbor: the position one step away in direction `d`, tagged
      with `d`. Nothing is checked against the grid's bounds. */
  function Neighbor(i: int, j: int, d: Direction): (r: (int, int, Direction))
    ensures r.2 == d
    ensures (d == Up || d == Down) <==> r.1 == j
    ensures (d == Left || d == Right) <==> r.0 == i
    ensures (r.0 - i) + (r.1 - j) == (if d == Down || d == Right then 1 else -1)
  {
    match d
    case Down => (i + 1, j, d)
    case Up => (i - 1, j, d)
    case Right => (i, j + 1, d)
    case Left => (i, j - 1, d)
  }

  /** The position part of `Neighbor`. */
  function Step(p: Pos, d: Direction): Pos {
    var n := Neighbor(p.0, p.1, d); (n.0, n.1)
  }

  /** Stepping in `d` and then in `Opposite(d)` returns to the start, and two
      different directions never lead to the same cell. */
  lemma StepInverse(p: Pos, d: Direction)
    ensures Step(Step(p, d), Opposite(d)) == p
  {
  }

  lemma StepInjective(p: Pos, d: Direction, e: Direction)
    requires Step(p, d) == Step(p, e)
    ensures d == e
  {
  }

  /** The fixed scan order of __get_unvisited_neighbors. */
  const ScanOrder: seq<Direction> := [Down, Right, Up, Left]

  function ScanIndex(d: Direction): (k: nat)
    ensures k < |ScanOrder| && ScanOrder[k] == d
  {
    match d
    case Down => 0
    case Right => 1
    case Up => 2
    case Left => 3
  }

  /** The scan visits every direction once. */
  lemma ScanOrderIsComplete()
    ensures forall d :: d in ScanOrder
    ensures forall a, b | 0 <= a < b < |ScanOrder| :: ScanOrder[a] != ScanOrder[b]
  {
    forall d: Direction
      ensures d in ScanOrder
    {
      assert ScanOrder[ScanIndex(d)] == d;
    }
  }

  /** The neighbour in direction `d` is a cell of the grid that is not visited. */
  predicate UnvisitedAt(g: Grid, rows: int, cols: int, p: Pos, d: Direction)
    requires WellFormed(g, rows, cols)
  {
    InBounds(rows, cols, Step(p, d)) && !At(g, Step(p, d)).visited
  }

  /** The filter of __get_unvisited_neighbors over `ScanOrder[k..]`. */
  function UnvisitedFrom(g: Grid, rows: int, cols: int, p: Pos, k: nat): (r: seq<(int, int, Direction)>)
    requires WellFormed(g, rows, cols) && k <= |ScanOrder|
    ensures forall t | t in r :: t == Neighbor(p.0, p.1, t.2) && UnvisitedAt(g, rows, cols, p, t.2)
    ensures forall t | t in r :: k <= ScanIndex(t.2)
    ensures forall d | k <= ScanIndex(d) && UnvisitedAt(g, rows, cols, p, d) :: Neighbor(p.0, p.1, d) in r
    decreases |ScanOrder| - k
  {
    if k == |ScanOrder| then []
    else
      var d := ScanOrder[k];
      var rest := UnvisitedFrom(g, rows, cols, p, k + 1);
      if UnvisitedAt(g, rows, cols, p, d) then [Neighbor(p.0, p.1, d)] + rest else rest
  }

  /** __get_unvisited_neighbors(i, j): in the order Down, Right, Up, Left,
      exactly the neighbours that lie in the grid and are not visited. */
  function UnvisitedNeighbors(g: Grid, rows: int, cols: int, p: Pos): (r: seq<(int, int, Direction)>)
    requires WellFormed(g, rows, cols)
    ensures forall t | t in r :: t == Neighbor(p.0, p.1, t.2) && UnvisitedAt(g, rows, cols, p, t.2)
    ensures forall d :: UnvisitedAt(g, rows, cols, p, d) <==> Neighbor(p.0, p.1, d) in r
  {
    UnvisitedFrom(g, rows, cols, p, 0)
  }

  /** Entries listed by strictly increasing scan index. */
  predicate InScanOrder(r: seq<(int, int, Direction)>) {
    forall a, b | 0 <= a < b < |r| :: ScanIndex(r[a].2) < ScanIndex(r[b].2)
  }

  /** An entry of scan index `k` put in front of entries of larger index
      keeps the scan order. */
  lemma ConsInScanOrder(x: (int, int, Direction), rest: seq<(int, int, Direction)>, k: nat)
    requires ScanIndex(x.2) == k && InScanOrder(rest)
    requires forall t | t in rest :: k < ScanIndex(t.2)
    ensures InScanOrder([x] + rest)
  {
    var r := [x] + rest;
    forall a, b | 0 <= a < b < |r|
      ensures ScanIndex(r[a].2) < ScanIndex(r[b].2)
    {
      assert r[b] == rest[b - 1] && rest[b - 1] in rest;
      if a > 0 {
        assert r[a] == rest[a - 1];
      }
    }
  }

  /** The filter over `ScanOrder[k..]` keeps the scan order. */
  lemma {:induction false} UnvisitedFromInScanOrder(g: Grid, rows: int, cols: int, p: Pos, k: nat)
    requires WellFormed(g, rows, cols) && k <= |ScanOrder|
    ensures InScanOrder(UnvisitedFrom(g, rows, cols, p, k))
    decreases |ScanOrder| - k
  {
    if k < |ScanOrder| {
      UnvisitedFromInScanOrder(g, rows, cols, p, k + 1);
      var d := ScanOrder[k];
      var rest := UnvisitedFrom(g, rows, cols, p, k + 1);
      if UnvisitedAt(g, rows, cols, p, d) {
        ConsInScanOrder(Neighbor(p.0, p.1, d), rest, k);
        assert UnvisitedFrom(g, rows, cols, p, k) == [Neighbor(p.0, p.1, d)] + rest;
      } else {
        assert UnvisitedFrom(g, rows, cols, p, k) == rest;
      }
    }
  }

  /** __get_unvisited_neighbors lists the neighbours in the order Down,
      Right, Up, Left. */
  lemma UnvisitedInScanOrder(g: Grid, rows: int, cols: int, p: Pos)
    requires WellFormed(g, rows, cols)
    ensures var r := UnvisitedNeighbors(g, rows, cols, p);
            forall a, b | 0 <= a < b < |r| :: ScanIndex(r[a].2) < ScanIndex(r[b].2)
  {
    assert UnvisitedNeighbors(g, rows, cols, p) == UnvisitedFrom(g, rows, cols, p, 0);
    UnvisitedFromInScanOrder(g, rows, cols, p, 0);
  }

  /** Positions of a neighbour list, dropping the directions. */
  function Positions(ns: seq<(int, int, Direction)>): (r: seq<Pos>)
    ensures |r| == |ns| && forall k | 0 <= k < |ns| :: r[k] == (ns[k].0, ns[k].1)
  {
    if ns == [] then [] else [(ns[0].0, ns[0].1)] + Positions(ns[1..])
  }

  /** `a` is `b` with some elements left out, the rest kept in order. */
  predicate IsSubsequence<T(==)>(a: seq<T>, b: seq<T>) {
    if a == [] then true
    else if b == [] then false
    else (a[0] == b[0] && IsSubsequence(a[1..], b[1..])) || IsSubsequence(a, b[1..])
  }

  /** The filter of __get_accessible_neighbors: the positions of the entries
      of `ns` whose direction is not walled in `walls`. */
  function KeepOpen(walls: map<Direction, bool>, ns: seq<(int, int, Direction)>): (r: seq<Pos>)
    requires forall t | t in ns :: t.2 in walls
    ensures IsSubsequence(r, Positions(ns))
    ensures forall t | t in ns && !walls[t.2] :: (t.0, t.1) in r
    ensures forall q | q in r :: exists t :: t in ns && !walls[t.2] && q == (t.0, t.1)
  {
    if ns == [] then []
    else
      var rest := KeepOpen(walls, ns[1..]);
      assert Positions(ns)[1..] == Positions(ns[1..]);
      if !walls[ns[0].2] then
        var r := [(ns[0].0, ns[0].1)] + rest;
        assert r[1..] == rest;
        r
      else rest
  }

  /** The move from `p` in direction `d` stays in the grid and no wall on
      `p`'s side blocks it. */
  predicate OpenMove(g: Grid, rows: int, cols: int, p: Pos, d: Direction)
    requires WellFormed(g, rows, cols)
  {
    InBounds(rows, cols, p) && InBounds(rows, cols, Step(p, d)) && !At(g, p).walls[d]
  }

  /** A move the solvers may take: open, and into an unvisited cell. */
  predicate ForwardMove(g: Grid, rows: int, cols: int, p: Pos, d: Direction)
    requires WellFormed(g, rows, cols)
  {
    OpenMove(g, rows, cols, p, d) && !At(g, Step(p, d)).visited
  }

  /** __get_accessible_neighbors(i, j): in the order Down, Right, Up, Left,
      exactly the unvisited neighbours that no wall of cell `p` separates
      from it; a subsequence of the unvisited neighbours. */
  function AccessibleNeighbors(g: Grid, rows: int, cols: int, p: Pos): (r: seq<Pos>)
    requires WellFormed(g, rows, cols) && InBounds(rows, cols, p)
    ensures IsSubsequence(r, Positions(UnvisitedNeighbors(g, rows, cols, p)))
    ensures forall d :: ForwardMove(g, rows, cols, p, d) <==> Step(p, d) in r
    ensures forall q | q in r :: exists d :: q == Step(p, d) && ForwardMove(g, rows, cols, p, d)
  {
    var ns := UnvisitedNeighbors(g, rows, cols, p);
    var r := KeepOpen(At(g, p).walls, ns);
    forall d | Step(p, d) in r
      ensures ForwardMove(g, rows, cols, p, d)
    {
      var t :| t in ns && !At(g, p).walls[t.2] && Step(p, d) == (t.0, t.1);
      StepInjective(p, d, t.2);
    }
    r
  }

  /** The cell at (i, j) as __create_cells builds it: fully walled and
      unvisited, its box one cell size wide and high at column `j` along
      x and row `i` along y, and its h score `cols - i + rows - j`. */
  function CreateCell(x: int, y: int, rows: int, cols: int, sx: int, sy: int, i: int, j: int): (c: Cell)
    ensures HasAllWalls(c) && AllWallsUp(c) && SearchCleared(c)
    ensures c.x1 == x + sx * j && c.y1 == y + sy * i && c.x2 - c.x1 == sx && c.y2 - c.y1 == sy
    ensures c.h == cols - i + rows - j
  {
    var x1 := x + sx * j;
    var y1 := y + sy * i;
    NewCell(x1, y1, x1 + sx, y1 + sy).(h := cols - i + rows - j)
  }

  /** __create_cells: a grid of `rows` rows of `cols` cells, cell (i, j)
      built by `CreateCell`. */
  function CreateCells(x: int, y: int, rows: int, cols: int, sx: int, sy: int): (g: Grid)
    requires rows >= 0 && cols >= 0
    ensures WellFormed(g, rows, cols)
    ensures forall i, j | 0 <= i < rows && 0 <= j < cols ::
              g[i][j] == CreateCell(x, y, rows, cols, sx, sy, i, j)
  {
    seq(rows, i => seq(cols, j => CreateCell(x, y, rows, cols, sx, sy, i, j)))
  }

  /** The created grid: every cell fully walled and unvisited; the boxes
      tile the area from (x, y) with columns along x and rows along y; the
      score h is `cols - i + rows - j` and so falls by one for every step
      down or to the right. */
  lemma CreatedLayout(x: int, y: int, rows: int, cols: int, sx: int, sy: int)
    requires rows >= 0 && cols >= 0
    ensures var g := CreateCells(x, y, rows, cols, sx, sy);
      && (forall i, j | 0 <= i < rows && 0 <= j < cols ::
            AllWallsUp(g[i][j]) && SearchCleared(g[i][j])
            && g[i][j].h == cols - i + rows - j
            && g[i][j].x2 - g[i][j].x1 == sx && g[i][j].y2 - g[i][j].y1 == sy)
      && (forall i, j {:trigger g[i][j]} | 0 <= i < rows && 0 <= j < cols - 1 ::
            g[i][j].x2 == g[i][j + 1].x1 && g[i][j].y1 == g[i][j + 1].y1
            && g[i][j].h == g[i][j + 1].h + 1)
      && (forall i, j {:trigger g[i][j]} | 0 <= i < rows - 1 && 0 <= j < cols ::
            g[i][j].y2 == g[i + 1][j].y1 && g[i][j].x1 == g[i + 1][j].x1
            && g[i][j].h == g[i + 1][j].h + 1)
      && (rows > 0 && cols > 0 ==> g[0][0].x1 == x && g[0][0].y1 == y)
  {
    var g: Grid := CreateCells(x, y, rows, cols, sx, sy);
    forall i: int, j: int | 0 <= i < rows && 0 <= j < cols - 1
      ensures g[i][j].x2 == g[i][j + 1].x1
    {
      assert sx * j + sx == sx * (j + 1);
    }
    forall i: int, j: int | 0 <= i < rows - 1 && 0 <= j < cols
      ensures g[i][j].y2 == g[i + 1][j].y1
    {
      assert sy * i + sy == sy * (i + 1);
    }
  }

  /** The number of unit steps between two positions of the grid. */
  function Manhattan(p: Pos, q: Pos): nat {
    (if p.0 <= q.0 then q.0 - p.0 else p.0 - q.0) + (if p.1 <= q.1 then q.1 - p.1 else p.1 - q.1)
  }

  /** The h score `cols - i + rows - j` that __create_cells gives cell
      (i, j) is its Manhattan distance to the goal plus 2, whatever the
      shape of the grid. */
  lemma CreatedHeuristic(x: int, y: int, rows: int, cols: int, sx: int, sy: int)
    requires rows >= 0 && cols >= 0
    ensures var g := CreateCells(x, y, rows, cols, sx, sy);
      forall i, j | 0 <= i < rows && 0 <= j < cols ::
        g[i][j].h == Manhattan((i, j), Goal(rows, cols)) + 2
  {
  }

  /** reset_cell: clear the search fields of one cell, keeping its walls,
      its box and its h score; a cleared cell is left as it is. */
  function ResetCell(c: Cell): (r: Cell)
    ensures SearchCleared(r) && r.walls == c.walls && r.h == c.h
    ensures r.x1 == c.x1 && r.y1 == c.y1 && r.x2 == c.x2 && r.y2 == c.y2
    ensures SearchCleared(c) ==> r == c
  {
    c.(visited := false, parent := None, g := Inf, f := Inf)
  }

  /** Every cell of `g` has its search fields cleared. */
  predicate GridCleared(g: Grid) {
    forall i, j | 0 <= i < |g| && 0 <= j < |g[i]| :: SearchCleared(g[i][j])
  }

  /** Two grids of the same shape whose cells agree on box and h. */
  predicate SameBoxes(a: Grid, b: Grid) {
    && |a| == |b|
    && (forall i | 0 <= i < |a| :: |a[i]| == |b[i]|)
    && (forall i, j | 0 <= i < |a| && 0 <= j < |a[i]| && j < |b[i]| ::
          a[i][j].h == b[i][j].h
          && a[i][j].x1 == b[i][j].x1 && a[i][j].y1 == b[i][j].y1
          && a[i][j].x2 == b[i][j].x2 && a[i][j].y2 == b[i][j].y2)
  }

  /** Two grids of the same shape whose cells agree on walls, box and h. */
  predicate SameLayout(a: Grid, b: Grid) {
    && SameBoxes(a, b)
    && (forall i, j | 0 <= i < |a| && 0 <= j < |a[i]| && j < |b[i]| ::
          a[i][j].walls == b[i][j].walls)
  }

  /** `g` with the wall of cell `p` in direction `d` set to `b`. */
  function SetWall(g: Grid, p: Pos, d: Direction, b: bool): Grid
    requires 0 <= p.0 < |g| && 0 <= p.1 < |g[p.0]|
  {
    Update(g, p, At(g, p).(walls := At(g, p).walls[d := b]))
  }

  /** `g` with cell `p` marked visited. */
  function SetVisited(g: Grid, p: Pos): Grid
    requires 0 <= p.0 < |g| && 0 <= p.1 < |g[p.0]|
  {
    Update(g, p, At(g, p).(visited := true))
  }

  /** `g` with the parent of cell `p` set to `u`. */
  function SetParent(g: Grid, p: Pos, u: Pos): Grid
    requires 0 <= p.0 < |g| && 0 <= p.1 < |g[p.0]|
  {
    Update(g, p, At(g, p).(parent := Some(u)))
  }

  /** `g` with the g score of cell `p` set to `s`. */
  function SetG(g: Grid, p: Pos, s: Score): Grid
    requires 0 <= p.0 < |g| && 0 <= p.1 < |g[p.0]|
  {
    Update(g, p, At(g, p).(g := s))
  }

  /** `g` with the f score of cell `p` set to `s`. */
  function SetF(g: Grid, p: Pos, s: Score): Grid
    requires 0 <= p.0 < |g| && 0 <= p.1 < |g[p.0]|
  {
    Update(g, p, At(g, p).(f := s))
  }

  /** Replacing one cell by a cell with all four walls changes that cell only. */
  lemma UpdateEffect(g: Grid, rows: int, cols: int, p: Pos, c: Cell)
    requires WellFormed(g, rows, cols) && InBounds(rows, cols, p) && HasAllWalls(c)
    ensures WellFormed(Update(g, p, c), rows, cols)
    ensures forall r | InBounds(rows, cols, r) :: At(Update(g, p, c), r) == if r == p then c else At(g, r)
  {
    UpdateKeepsShape(g, rows, cols, p, c);
  }

  /** Setting one wall changes that wall only. */
  lemma SetWallEffect(g: Grid, rows: int, cols: int, p: Pos, d: Direction, b: bool)
    requires WellFormed(g, rows, cols) && InBounds(rows, cols, p)
    ensures WellFormed(SetWall(g, p, d, b), rows, cols)
    ensures forall r, e | InBounds(rows, cols, r) ::
              At(SetWall(g, p, d, b), r).walls[e] == if (r, e) == (p, d) then b else At(g, r).walls[e]
    ensures forall r | InBounds(rows, cols, r) ::
              At(SetWall(g, p, d, b), r).(walls := At(g, r).walls) == At(g, r)
  {
    UpdateKeepsShape(g, rows, cols, p, At(g, p).(walls := At(g, p).walls[d := b]));
  }

  /** Marking one cell visited changes that flag only. */
  lemma SetVisitedEffect(g: Grid, rows: int, cols: int, p: Pos)
    requires WellFormed(g, rows, cols) && InBounds(rows, cols, p)
    ensures WellFormed(SetVisited(g, p), rows, cols)
    ensures forall r | InBounds(rows, cols, r) ::
              At(SetVisited(g, p), r) == if r == p then At(g, r).(visited := true) else At(g, r)
  {
    UpdateKeepsShape(g, rows, cols, p, At(g, p).(visited := true));
  }

  /** From `g` to `g2` at most the visited flag of `c` turned on. */
  ghost predicate VisitsOnly(g: Grid, g2: Grid, rows: int, cols: int, c: Pos)
    requires WellFormed(g, rows, cols) && WellFormed(g2, rows, cols)
  {
    forall p | InBounds(rows, cols, p) :: At(g2, p).visited == (At(g, p).visited || p == c)
  }

  /** The grid that Maze.reset leaves: every cell cleared, the layout
      (walls, boxes, h scores) untouched. */
  function ResetGrid(g: Grid): (r: Grid)
    ensures GridCleared(r)
    ensures SameLayout(g, r)
  {
    seq(|g|, i requires 0 <= i < |g| =>
      seq(|g[i]|, j requires 0 <= j < |g[i]| => ResetCell(g[i][j])))
  }

  /** Resetting a cleared grid changes nothing, so reset is idempotent. */
  lemma ResetOfClearedIsIdentity(g: Grid)
    requires GridCleared(g)
    ensures ResetGrid(g) == g
  {
    var r := ResetGrid(g);
    forall i | 0 <= i < |g|
      ensures r[i] == g[i]
    {
      assert |r[i]| == |g[i]|;
      forall j | 0 <= j < |g[i]|
        ensures r[i][j] == g[i][j]
      {
      }
    }
  }

  lemma ResetIdempotent(g: Grid)
    ensures ResetGrid(ResetGrid(g)) == ResetGrid(g)
  {
    ResetOfClearedIsIdentity(ResetGrid(g));
  }

  /** A new cell is already in the state a reset leaves. */
  lemma NewCellIsReset(x1: int, y1: int, x2: int, y2: int)
    ensures ResetCell(NewCell(x1, y1, x2, y2)) == NewCell(x1, y1, x2, y2)
  {
  }
}
