/** The `Maze` class of src/maze.py: it builds a grid of cells, opens an
    entrance and an exit, carves a perfect maze by randomised depth-first
    search, and solves it by breadth-first search, depth-first search or A*.
    Cells are identified by their position; the cell objects of the source
    are the values of `cells`. */
module Maze {
  import opened Cell
  import opened MazeGrid
  import opened MazeGraph
  import opened MazeCarving
  import opened MazeSearch
  import opened MazeSolvers

  /** The first half of the body of the loop of __break_walls: pop the top
      position `c`; if its cell is new and was pushed by a neighbour, open
      the wall between them and mark it visited. Either a cell is carved,
      or nothing changes but the stack, whose visited entries drop by one. */
  method VisitTop(g0: Grid, g: Grid, rows: int, cols: int, stack: seq<Pos>, cameFrom: map<Pos, (Pos, Direction)>,
                  ghost t: Tree, ghost rk: map<Pos, nat>, ghost n: nat)
    returns (g2: Grid, stack2: seq<Pos>, c: Pos, ghost t2: Tree, ghost rk2: map<Pos, nat>, ghost n2: nat)
    requires KeepsLayout(g0, g, rows, cols) && CarvedSoFar(g, rows, cols, t, rk, n)
    requires StackLinks(g, rows, cols, stack, cameFrom) && FrontierStacked(g, rows, cols, stack, {})
    requires |stack| > 0
    ensures stack == stack2 + [c]
    ensures KeepsLayout(g0, g2, rows, cols) && CarvedSoFar(g2, rows, cols, t2, rk2, n2)
    ensures StackLinks(g2, rows, cols, stack2, cameFrom) && FrontierStacked(g2, rows, cols, stack2, {c})
    ensures InBounds(rows, cols, c) && At(g2, c).visited
    ensures if !At(g, c).visited && c in cameFrom
            then g2 == CarveInto(g, cameFrom[c].0, cameFrom[c].1, c) && |t2.Keys| == |t.Keys| + 1
            else g2 == g && t2 == t && VisitedEntries(g, rows, cols, stack2) + 1 == VisitedEntries(g, rows, cols, stack)
  {
    PoppedInBounds(g, rows, cols, stack, cameFrom);
    c := stack[|stack| - 1];
    stack2 := stack[..|stack| - 1];
    SplitLast(stack);
    g2, t2, rk2, n2 := g, t, rk, n;
    if !At(g, c).visited && c in cameFrom {
      var (q, d) := cameFrom[c];
      CarveStep(g0, g, rows, cols, t, rk, n, q, d, c);
      g2 := SetWall(g2, q, d, false);
      g2 := SetWall(g2, c, Opposite(d), false);
      g2 := SetVisited(g2, c);
      t2 := t[c := (q, d)];
      rk2 := rk[c := n];
      n2 := n + 1;
    } else {
      VisitedEntriesAppend(g, rows, cols, stack2, c);
    }
    PopKeepsFrontier(g, g2, rows, cols, stack2, c);
    VisitKeepsLinks(g, g2, rows, cols, stack2, cameFrom, c);
  }

  /** The inner loop of __break_walls: push each neighbour in `ns` in
      turn, recording `c` as the cell that pushed it. */
  method PushNeighbors(g: Grid, rows: int, cols: int, stack: seq<Pos>, cameFrom: map<Pos, (Pos, Direction)>,
                       c: Pos, ns: seq<(int, int, Direction)>)
    returns (stack2: seq<Pos>, cameFrom2: map<Pos, (Pos, Direction)>)
    requires WellFormed(g, rows, cols) && InBounds(rows, cols, c) && At(g, c).visited
    requires StackLinks(g, rows, cols, stack, cameFrom)
    requires forall e | e in ns :: e == Neighbor(c.0, c.1, e.2) && UnvisitedAt(g, rows, cols, c, e.2)
    ensures stack2 == stack + Positions(ns)
    ensures StackLinks(g, rows, cols, stack2, cameFrom2)
    ensures VisitedEntries(g, rows, cols, stack2) == VisitedEntries(g, rows, cols, stack)
  {
    stack2, cameFrom2 := stack, cameFrom;
    var m := 0;
    while m < |ns|
      invariant 0 <= m <= |ns|
      invariant stack2 == stack + Positions(ns)[..m]
      invariant StackLinks(g, rows, cols, stack2, cameFrom2)
      invariant VisitedEntries(g, rows, cols, stack2) == VisitedEntries(g, rows, cols, stack)
    {
      var (k, l, dir) := ns[m];
      assert ns[m] in ns;
      PushKeepsLinks(g, rows, cols, stack2, cameFrom2, c, dir);
      VisitedEntriesAppend(g, rows, cols, stack2, (k, l));
      cameFrom2 := cameFrom2[(k, l) := (c, dir)];
      stack2 := stack2 + [(k, l)];
      AppendTake(stack, Positions(ns), m);
      m := m + 1;
    }
    assert Positions(ns)[..m] == Positions(ns);
  }

  /** The loop of __break_walls, on the grid as a value: randomised
      depth-first carving from the start. A cell popped for the first time
      is joined to the cell that pushed it last, by opening the wall between
      them; then its unvisited neighbours are pushed in a random order. The
      carves form a spanning tree `t` of the grid, made in the order `rk`. */
  method CarvePassages(g0: Grid, rows: int, cols: int) returns (g: Grid, ghost t: Tree, ghost rk: map<Pos, nat>)
    requires WellFormed(g0, rows, cols) && rows > 0 && cols > 0
    requires forall p | InBounds(rows, cols, p) :: !At(g0, p).visited
    requires forall p, d | InBounds(rows, cols, p) && InBounds(rows, cols, Step(p, d)) :: At(g0, p).walls[d]
    ensures KeepsLayout(g0, g, rows, cols)
    ensures SpanningTree(g, rows, cols, t, rk)
    ensures forall p | InBounds(rows, cols, p) :: At(g, p).visited
  {
    g := g0;
    t := map[];
    rk := map[Start := 0];
    ghost var n: nat := 1;
    SetVisitedEffect(g, rows, cols, Start);
    g := SetVisited(g, Start);
    var stack: seq<Pos> := [Start];
    var cameFrom: map<Pos, (Pos, Direction)> := map[];
    while |stack| > 0
      invariant KeepsLayout(g0, g, rows, cols)
      invariant CarvedSoFar(g, rows, cols, t, rk, n)
      invariant StackLinks(g, rows, cols, stack, cameFrom)
      invariant FrontierStacked(g, rows, cols, stack, {})
      decreases rows * cols - |t.Keys|, VisitedEntries(g, rows, cols, stack)
    {
      CarvedBound(g, rows, cols, t, rk, n);
      var c;
      g, stack, c, t, rk, n := VisitTop(g0, g, rows, cols, stack, cameFrom, t, rk, n);
      var nbrs := UnvisitedNeighbors(g, rows, cols, c);
      var shuffled: seq<(int, int, Direction)> :| multiset(shuffled) == multiset(nbrs);
      ShuffledNeighbors(g, rows, cols, c, shuffled);
      ghost var popped := stack;
      stack, cameFrom := PushNeighbors(g, rows, cols, stack, cameFrom, c, shuffled);
      PushedNeighborsCloseFrontier(g, rows, cols, popped, c, shuffled);
    }
    CarvingFinished(g, rows, cols, t, rk, n);
  }

  /** Every wall of a freshly created grid stands. */
  lemma CreatedWallsUp(x: int, y: int, rows: int, cols: int, sx: int, sy: int)
    requires rows >= 0 && cols >= 0
    ensures forall p, d | InBounds(rows, cols, p) :: At(CreateCells(x, y, rows, cols, sx, sy), p).walls[d]
  {
    var g0 := CreateCells(x, y, rows, cols, sx, sy);
    forall p, d | InBounds(rows, cols, p)
      ensures At(g0, p).walls[d]
    {
      assert g0[p.0][p.1] == CreateCell(x, y, rows, cols, sx, sy, p.0, p.1);
    }
  }

  /** Every cell of a freshly created grid is unvisited. */
  lemma CreatedUnvisited(x: int, y: int, rows: int, cols: int, sx: int, sy: int)
    requires rows >= 0 && cols >= 0
    ensures forall p | InBounds(rows, cols, p) :: !At(CreateCells(x, y, rows, cols, sx, sy), p).visited
  {
    var g0 := CreateCells(x, y, rows, cols, sx, sy);
    forall p | InBounds(rows, cols, p)
      ensures !At(g0, p).visited
    {
      assert g0[p.0][p.1] == CreateCell(x, y, rows, cols, sx, sy, p.0, p.1);
    }
  }

  /** The grid as created, with entrance and exit opened, is ready for
      carving: no cell is visited and every inner wall stands. */
  lemma ReadyToCarve(x: int, y: int, rows: int, cols: int, sx: int, sy: int, g0: Grid, g1: Grid)
    requires rows > 0 && cols > 0 && g0 == CreateCells(x, y, rows, cols, sx, sy) && WellFormed(g1, rows, cols)
    requires forall p, d | InBounds(rows, cols, p) && (p, d) != (Start, Up) && (p, d) != (Goal(rows, cols), Down) ::
               At(g1, p).walls[d] == At(g0, p).walls[d]
    requires forall p | InBounds(rows, cols, p) :: At(g1, p).(walls := At(g0, p).walls) == At(g0, p)
    ensures forall p | InBounds(rows, cols, p) :: !At(g1, p).visited
    ensures forall p, d | InBounds(rows, cols, p) && InBounds(rows, cols, Step(p, d)) :: At(g1, p).walls[d]
  {
    CreatedWallsUp(x, y, rows, cols, sx, sy);
    CreatedUnvisited(x, y, rows, cols, sx, sy);
    forall p | InBounds(rows, cols, p)
      ensures !At(g1, p).visited
    {
      assert At(g1, p).(walls := At(g0, p).walls) == At(g0, p);
    }
  }

  /** After carving and reset the outer walls are as created, but for an
      open entrance and exit. */
  lemma OuterWallsAfterCarving(rows: int, cols: int, g0: Grid, g1: Grid, g2: Grid, g3: Grid)
    requires rows > 0 && cols > 0
    requires WellFormed(g0, rows, cols) && WellFormed(g1, rows, cols) && WellFormed(g2, rows, cols)
    requires forall p, d | InBounds(rows, cols, p) :: At(g0, p).walls[d]
    requires forall p, d | InBounds(rows, cols, p) && (p, d) != (Start, Up) && (p, d) != (Goal(rows, cols), Down) ::
               At(g1, p).walls[d] == At(g0, p).walls[d]
    requires !At(g1, Start).walls[Up] && !At(g1, Goal(rows, cols)).walls[Down]
    requires forall p, d | InBounds(rows, cols, p) && !InBounds(rows, cols, Step(p, d)) ::
               At(g2, p).walls[d] == At(g1, p).walls[d]
    requires g3 == ResetGrid(g2)
    ensures forall p, d | InBounds(rows, cols, p) && !InBounds(rows, cols, Step(p, d)) ::
              At(g3, p).walls[d] == ((p, d) != (Start, Up) && (p, d) != (Goal(rows, cols), Down))
  {
    forall p, d | InBounds(rows, cols, p) && !InBounds(rows, cols, Step(p, d))
      ensures At(g3, p).walls[d] == ((p, d) != (Start, Up) && (p, d) != (Goal(rows, cols), Down))
    {
      assert At(g3, p).walls == At(g2, p).walls;
    }
  }

  /** Opening walls, carving and resetting keep every box and h score. */
  lemma BoxesAfterCarving(rows: int, cols: int, g0: Grid, g1: Grid, g2: Grid, g3: Grid)
    requires WellFormed(g0, rows, cols) && WellFormed(g1, rows, cols)
    requires forall p | InBounds(rows, cols, p) :: At(g1, p).(walls := At(g0, p).walls) == At(g0, p)
    requires SameBoxes(g1, g2) && g3 == ResetGrid(g2)
    ensures SameBoxes(g0, g3)
  {
    forall i, j | 0 <= i < rows && 0 <= j < cols
      ensures g0[i][j].h == g1[i][j].h && g0[i][j].x1 == g1[i][j].x1 && g0[i][j].y1 == g1[i][j].y1
        && g0[i][j].x2 == g1[i][j].x2 && g0[i][j].y2 == g1[i][j].y2
    {
      assert At(g1, (i, j)).(walls := At(g0, (i, j)).walls) == At(g0, (i, j));
    }
  }

  /** What __init__ leaves after carving and the final reset: every search
      field cleared, the boxes as created, the outer walls standing but for
      entrance and exit, and the walls a perfect maze. */
  lemma Constructed(x: int, y: int, rows: int, cols: int, sx: int, sy: int, g0: Grid, g1: Grid, g2: Grid, g3: Grid,
                    t: Tree, rk: map<Pos, nat>)
    requires rows > 0 && cols > 0 && g0 == CreateCells(x, y, rows, cols, sx, sy)
    requires WellFormed(g1, rows, cols) && WellFormed(g2, rows, cols) && WellFormed(g3, rows, cols)
    requires forall p, d | InBounds(rows, cols, p) && (p, d) != (Start, Up) && (p, d) != (Goal(rows, cols), Down) ::
               At(g1, p).walls[d] == At(g0, p).walls[d]
    requires !At(g1, Start).walls[Up] && !At(g1, Goal(rows, cols)).walls[Down]
    requires forall p | InBounds(rows, cols, p) :: At(g1, p).(walls := At(g0, p).walls) == At(g0, p)
    requires SpanningTree(g2, rows, cols, t, rk) && SameBoxes(g1, g2)
    requires forall p, d | InBounds(rows, cols, p) && !InBounds(rows, cols, Step(p, d)) ::
               At(g2, p).walls[d] == At(g1, p).walls[d]
    requires g3 == ResetGrid(g2)
    ensures GridCleared(g3) && SameBoxes(g0, g3)
    ensures forall p, d | InBounds(rows, cols, p) && !InBounds(rows, cols, Step(p, d)) ::
              At(g3, p).walls[d] == ((p, d) != (Start, Up) && (p, d) != (Goal(rows, cols), Down))
    ensures SpanningTree(g3, rows, cols, t, rk)
    ensures |t| == rows * cols - 1
  {
    CreatedWallsUp(x, y, rows, cols, sx, sy);
    OuterWallsAfterCarving(rows, cols, g0, g1, g2, g3);
    BoxesAfterCarving(rows, cols, g0, g1, g2, g3);
    SpanningTreeOfSameLayout(g2, g3, rows, cols, t, rk);
    SpanningTreeSize(g3, rows, cols, t, rk);
  }

  /** In a perfect maze the path down the tree reaches the goal. */
  lemma SolvableMaze(g: Grid, rows: int, cols: int, t: Tree, rk: map<Pos, nat>)
    requires WellFormed(g, rows, cols) && rows > 0 && cols > 0 && SpanningTree(g, rows, cols, t, rk)
    ensures exists path | IsPath(g, rows, cols, path) :: path[|path| - 1] == Goal(rows, cols)
  {
    var path := TreePath(g, rows, cols, t, rk, Goal(rows, cols));
  }

  class Maze {
    const x: int
    const y: int
    const numRows: int
    const numCols: int
    const cellSizeX: int
    const cellSizeY: int
    var cells: Grid
    /** The carves generation made, and the order it made them in. */
    ghost var tree: Tree
    ghost var rank: map<Pos, nat>

    ghost predicate Valid()
      reads this
    {
      numRows > 0 && numCols > 0 && WellFormed(cells, numRows, numCols)
    }

    /** Maze(x, y, num_rows, num_cols, cell_size_x, cell_size_y): the grid
        as created, entrance and exit opened, a perfect maze carved, and
        every search field cleared. */
    constructor (x: int, y: int, numRows: int, numCols: int, cellSizeX: int, cellSizeY: int)
      requires x >= 0 && y >= 0 && numRows > 0 && numCols > 0
      requires cellSizeX > 0 && cellSizeY > 0
      ensures this.x == x && this.y == y && this.numRows == numRows && this.numCols == numCols
      ensures this.cellSizeX == cellSizeX && this.cellSizeY == cellSizeY
      ensures Valid() && GridCleared(cells)
      ensures SameBoxes(CreateCells(x, y, numRows, numCols, cellSizeX, cellSizeY), cells)
      ensures forall p, d | InBounds(numRows, numCols, p) && !InBounds(numRows, numCols, Step(p, d)) ::
                At(cells, p).walls[d] == ((p, d) != (Start, Up) && (p, d) != (Goal(numRows, numCols), Down))
      ensures SpanningTree(cells, numRows, numCols, tree, rank)
      ensures |tree| == numRows * numCols - 1
    {
      this.x := x;
      this.y := y;
      this.numRows := numRows;
      this.numCols := numCols;
      this.cellSizeX := cellSizeX;
      this.cellSizeY := cellSizeY;
      cells := CreateCells(x, y, numRows, numCols, cellSizeX, cellSizeY);
      tree := map[];
      rank := map[];
      new;
      ghost var g0 := cells;
      BreakEntranceAndExit();
      ghost var g1 := cells;
      ReadyToCarve(x, y, numRows, numCols, cellSizeX, cellSizeY, g0, g1);
      BreakWalls();
      ghost var g2 := cells;
      Reset();
      Constructed(x, y, numRows, numCols, cellSizeX, cellSizeY, g0, g1, g2, cells, tree, rank);
    }

    /** __break_entrance_and_exit: open the top wall of the start cell and
        the bottom wall of the goal cell; nothing else changes. */
    method BreakEntranceAndExit()
      requires Valid()
      modifies this`cells
      ensures Valid()
      ensures cells == SetWall(SetWall(old(cells), Start, Up, false), Goal(numRows, numCols), Down, false)
      ensures !At(cells, Start).walls[Up] && !At(cells, Goal(numRows, numCols)).walls[Down]
      ensures forall p, d | InBounds(numRows, numCols, p)
                && (p, d) != (Start, Up) && (p, d) != (Goal(numRows, numCols), Down) ::
                At(cells, p).walls[d] == At(old(cells), p).walls[d]
      ensures forall p | InBounds(numRows, numCols, p) ::
                At(cells, p).(walls := At(old(cells), p).walls) == At(old(cells), p)
    {
      cells := SetWall(cells, Start, Up, false);
      cells := SetWall(cells, Goal(numRows, numCols), Down, false);
    }

    /** __break_walls: randomised depth-first carving from the start. A
        cell popped for the first time is joined to the cell that pushed it
        last, by opening the wall between them; then its unvisited
        neighbours are pushed in a random order. The carves form a spanning
        tree of the grid, recorded in `tree` and `rank`. */
    method BreakWalls()
      requires Valid()
      requires forall p | InBounds(numRows, numCols, p) :: !At(cells, p).visited
      requires forall p, d | InBounds(numRows, numCols, p) && InBounds(numRows, numCols, Step(p, d)) ::
                 At(cells, p).walls[d]
      modifies this`cells, this`tree, this`rank
      ensures Valid()
      ensures SpanningTree(cells, numRows, numCols, tree, rank)
      ensures forall p | InBounds(numRows, numCols, p) :: At(cells, p).visited
      ensures SameBoxes(old(cells), cells)
      ensures forall p | InBounds(numRows, numCols, p) ::
                At(cells, p).(walls := At(old(cells), p).walls, visited := At(old(cells), p).visited) == At(old(cells), p)
      ensures forall p, d | InBounds(numRows, numCols, p) && !InBounds(numRows, numCols, Step(p, d)) ::
                At(cells, p).walls[d] == At(old(cells), p).walls[d]
    {
      var g: Grid;
      ghost var t: Tree, rk: map<Pos, nat>;
      g, t, rk := CarvePassages(cells, numRows, numCols);
      OtherFieldsGiveBoxes(cells, g, numRows, numCols);
      cells, tree, rank := g, t, rk;
    }

    /** Maze.reset: clear every cell's visited flag, parent and scores. */
    method Reset()
      requires Valid()
      modifies this`cells
      ensures Valid()
      ensures cells == ResetGrid(old(cells))
      ensures GridCleared(cells) && SameLayout(old(cells), cells)
    {
      cells := ResetGrid(cells);
    }

    /** Maze.bfs: breadth-first search from the start. On a reset grid,
        success leaves a parent chain from the goal back to the start as
        long as the goal's g score, failure means no path reaches the goal,
        and a generated maze is always solved. */
    method Bfs() returns (found: bool)
      requires Valid()
      modifies this`cells
      ensures Valid() && SameLayout(old(cells), cells)
      ensures old(GridCleared(cells)) && found ==>
                exists k: nat :: Reaches(cells, numRows, numCols, Goal(numRows, numCols), k)
                                 && At(cells, Goal(numRows, numCols)).g == Fin(k)
      ensures old(GridCleared(cells)) && !found ==>
                forall path | IsPath(old(cells), numRows, numCols, path) :: path[|path| - 1] != Goal(numRows, numCols)
      ensures old(GridCleared(cells) && SpanningTree(cells, numRows, numCols, tree, rank)) ==> found
    {
      var g0 := cells;
      var g;
      found, g := BfsSearch(g0, numRows, numCols);
      LayoutIsSameLayout(g0, g, numRows, numCols);
      if GridCleared(g0) && SpanningTree(g0, numRows, numCols, tree, rank) {
        SolvableMaze(g0, numRows, numCols, tree, rank);
      }
      cells := g;
    }

    /** Maze.dfs: depth-first search from the start. On a reset grid,
        success leaves a parent chain from the goal back to the start,
        failure means no path reaches the goal, and a generated maze is
        always solved. */
    method Dfs() returns (found: bool)
      requires Valid()
      modifies this`cells
      ensures Valid() && SameLayout(old(cells), cells)
      ensures old(GridCleared(cells)) && found ==>
                exists k: nat :: Reaches(cells, numRows, numCols, Goal(numRows, numCols), k)
      ensures old(GridCleared(cells)) && !found ==>
                forall path | IsPath(old(cells), numRows, numCols, path) :: path[|path| - 1] != Goal(numRows, numCols)
      ensures old(GridCleared(cells) && SpanningTree(cells, numRows, numCols, tree, rank)) ==> found
    {
      var g0 := cells;
      var g;
      found, g := DfsSearch(g0, numRows, numCols);
      LayoutIsSameLayout(g0, g, numRows, numCols);
      if GridCleared(g0) && SpanningTree(g0, numRows, numCols, tree, rank) {
        SolvableMaze(g0, numRows, numCols, tree, rank);
      }
      cells := g;
    }

    /** Maze.a_star: A* search with corridor walks. On a reset grid,
        success leaves a parent chain from the goal back to the start, and
        failure on a grid of more than one cell means no path reaches the
        goal, so a generated maze of more than one cell is always solved.
        The start keeps the g score 1 and the f score 1 plus its h score it
        was seeded with. As written it never succeeds on a grid of one
        cell. */
    method AStar() returns (found: bool)
      requires Valid()
      modifies this`cells
      ensures Valid() && SameLayout(old(cells), cells)
      ensures found ==> Start != Goal(numRows, numCols)
      ensures old(GridCleared(cells)) && found ==>
                exists k: nat :: Reaches(cells, numRows, numCols, Goal(numRows, numCols), k)
      ensures old(GridCleared(cells)) && !found && Start != Goal(numRows, numCols) ==>
                forall path | IsPath(old(cells), numRows, numCols, path) :: path[|path| - 1] != Goal(numRows, numCols)
      ensures Start != Goal(numRows, numCols) ==>
                old(GridCleared(cells) && SpanningTree(cells, numRows, numCols, tree, rank)) ==> found
      ensures At(cells, Start).g == Fin(1) && At(cells, Start).f == Fin(1 + At(cells, Start).h)
    {
      var g0 := cells;
      var g;
      found, g := AStarSearch(g0, numRows, numCols);
      LayoutIsSameLayout(g0, g, numRows, numCols);
      if GridCleared(g0) && SpanningTree(g0, numRows, numCols, tree, rank) {
        SolvableMaze(g0, numRows, numCols, tree, rank);
      }
      cells := g;
    }
  }
}
