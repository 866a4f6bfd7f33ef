/** The `Maze` class of the earlier top-level copy (maze.py): it only
    builds the grid of cells and opens the entrance and the exit. Unlike
    src/maze.py it places the box of cell `[i][j]` with the row index on the
    x axis and the column index on the y axis. */
module LegacyMaze {
  import opened LegacyCell

  type OldGrid = seq<seq<OldCell>>

  /** The cell that __create_cells puts at `[i][j]`: all four walls
      standing, unvisited, its box starting at
      `(x + cellSizeX * i, y + cellSizeY * j)` and one cell size wide and
      high. */
  function BoxCell(x: int, y: int, cellSizeX: int, cellSizeY: int, i: int, j: int): (c: OldCell)
    ensures c.walls.Keys == WallNames && forall name | name in c.walls :: c.walls[name]
    ensures !c.visited && c.x1 == x + cellSizeX * i && c.y1 == y + cellSizeY * j
    ensures c.x2 - c.x1 == cellSizeX && c.y2 - c.y1 == cellSizeY
  {
    var x1 := x + cellSizeX * i;
    var y1 := y + cellSizeY * j;
    NewOldCell(x1, y1, x1 + cellSizeX, y1 + cellSizeY)
  }

  /** `g` has `rows` rows of `cols` cells, each the cell created for its slot. */
  ghost predicate Created(g: OldGrid, x: int, y: int, rows: int, cols: int, cellSizeX: int, cellSizeY: int) {
    && |g| == rows
    && (forall i | 0 <= i < rows :: |g[i]| == cols)
    && forall i, j | 0 <= i < rows && 0 <= j < cols :: g[i][j] == BoxCell(x, y, cellSizeX, cellSizeY, i, j)
  }

  /** `g` with the wall `name` of cell `[i][j]` set to `b`. */
  function SetOldWall(g: OldGrid, i: int, j: int, name: string, b: bool): (r: OldGrid)
    requires 0 <= i < |g| && 0 <= j < |g[i]|
    ensures |r| == |g| && forall a | 0 <= a < |g| :: |r[a]| == |g[a]|
    ensures forall a, c | 0 <= a < |g| && 0 <= c < |g[a]| ::
              r[a][c] == if (a, c) == (i, j) then g[i][j].(walls := g[i][j].walls[name := b]) else g[a][c]
  {
    g[i := g[i][j := g[i][j].(walls := g[i][j].walls[name := b])]]
  }

  /** The walls the entrance and the exit open: the top of the first cell
      and the bottom of the last. */
  predicate Breached(rows: int, cols: int, i: int, j: int, name: string) {
    (i, j, name) == (0, 0, "top") || (i, j, name) == (rows - 1, cols - 1, "bottom")
  }

  /** Neighbouring cells of a created grid share an edge: the boxes tile
      the rectangle from `(x, y)`, row index along x. */
  lemma CreatedTiles(g: OldGrid, x: int, y: int, rows: int, cols: int, cellSizeX: int, cellSizeY: int)
    requires Created(g, x, y, rows, cols, cellSizeX, cellSizeY)
    ensures forall i, j {:trigger g[i][j]} | 0 <= i < rows - 1 && 0 <= j < cols :: g[i][j].x2 == g[i + 1][j].x1 && g[i][j].y1 == g[i + 1][j].y1
    ensures forall i, j {:trigger g[i][j]} | 0 <= i < rows && 0 <= j < cols - 1 :: g[i][j].y2 == g[i][j + 1].y1 && g[i][j].x1 == g[i][j + 1].x1
  {
    forall i, j {:trigger g[i][j]} | 0 <= i < rows - 1 && 0 <= j < cols
      ensures g[i][j].x2 == g[i + 1][j].x1 && g[i][j].y1 == g[i + 1][j].y1
    {
      assert g[i][j] == BoxCell(x, y, cellSizeX, cellSizeY, i, j);
      assert g[i + 1][j] == BoxCell(x, y, cellSizeX, cellSizeY, i + 1, j);
    }
    forall i, j {:trigger g[i][j]} | 0 <= i < rows && 0 <= j < cols - 1
      ensures g[i][j].y2 == g[i][j + 1].y1 && g[i][j].x1 == g[i][j + 1].x1
    {
      assert g[i][j] == BoxCell(x, y, cellSizeX, cellSizeY, i, j);
      assert g[i][j + 1] == BoxCell(x, y, cellSizeX, cellSizeY, i, j + 1);
    }
  }

  /** After the breach of a created grid, every wall stands but the
      entrance and the exit. */
  lemma BreachedWalls(g: OldGrid, g2: OldGrid, x: int, y: int, rows: int, cols: int, cellSizeX: int, cellSizeY: int)
    requires rows > 0 && cols > 0 && Created(g, x, y, rows, cols, cellSizeX, cellSizeY)
    requires g2 == SetOldWall(SetOldWall(g, 0, 0, "top", false), rows - 1, cols - 1, "bottom", false)
    ensures |g2| == rows && forall i | 0 <= i < rows :: |g2[i]| == cols
    ensures forall i, j | 0 <= i < rows && 0 <= j < cols ::
              && g2[i][j].walls.Keys == WallNames && !g2[i][j].visited
              && g2[i][j].(walls := g[i][j].walls) == g[i][j]
    ensures forall i, j, name | 0 <= i < rows && 0 <= j < cols && name in WallNames ::
              g2[i][j].walls[name] == !Breached(rows, cols, i, j, name)
  {
    var g1 := SetOldWall(g, 0, 0, "top", false);
    forall i, j | 0 <= i < rows && 0 <= j < cols
      ensures g2[i][j].walls.Keys == WallNames && !g2[i][j].visited
      ensures g2[i][j].(walls := g[i][j].walls) == g[i][j]
      ensures forall name | name in WallNames :: g2[i][j].walls[name] == !Breached(rows, cols, i, j, name)
    {
      assert g[i][j] == BoxCell(x, y, cellSizeX, cellSizeY, i, j);
    }
  }

  class Maze {
    const x: int
    const y: int
    const numRows: int
    const numCols: int
    const cellSizeX: int
    const cellSizeY: int
    var cells: OldGrid

    /** Maze(x, y, num_rows, num_cols, cell_size_x, cell_size_y): the grid
        as created, with entrance and exit opened. */
    constructor (x: int, y: int, numRows: int, numCols: int, cellSizeX: int, cellSizeY: int)
      requires x >= 0 && y >= 0 && numRows > 0 && numCols > 0
      requires cellSizeX > 0 && cellSizeY > 0
      ensures this.x == x && this.y == y && this.numRows == numRows && this.numCols == numCols
      ensures this.cellSizeX == cellSizeX && this.cellSizeY == cellSizeY
      ensures |cells| == numRows && forall i | 0 <= i < numRows :: |cells[i]| == numCols
      ensures forall i, j | 0 <= i < numRows && 0 <= j < numCols ::
                && cells[i][j].walls.Keys == WallNames && !cells[i][j].visited
                && cells[i][j].(walls := BoxCell(x, y, cellSizeX, cellSizeY, i, j).walls)
                   == BoxCell(x, y, cellSizeX, cellSizeY, i, j)
      ensures forall i, j, name | 0 <= i < numRows && 0 <= j < numCols && name in WallNames ::
                cells[i][j].walls[name] == !Breached(numRows, numCols, i, j, name)
    {
      this.x := x;
      this.y := y;
      this.numRows := numRows;
      this.numCols := numCols;
      this.cellSizeX := cellSizeX;
      this.cellSizeY := cellSizeY;
      cells := [];
      new;
      CreateCells();
      ghost var g := cells;
      BreakEntranceAndExit();
      BreachedWalls(g, cells, x, y, numRows, numCols, cellSizeX, cellSizeY);
    }

    /** __create_cells: row by row, each row cell by cell, the cell whose
        box is placed for its slot. */
    method CreateCells()
      requires numRows > 0 && numCols > 0
      modifies this`cells
      ensures Created(cells, x, y, numRows, numCols, cellSizeX, cellSizeY)
    {
      var grid: OldGrid := [];
      var i := 0;
      while i < numRows
        invariant 0 <= i <= numRows
        invariant |grid| == i
        invariant forall a | 0 <= a < i :: |grid[a]| == numCols
        invariant forall a, b | 0 <= a < i && 0 <= b < numCols :: grid[a][b] == BoxCell(x, y, cellSizeX, cellSizeY, a, b)
      {
        var row: seq<OldCell> := [];
        var j := 0;
        while j < numCols
          invariant 0 <= j <= numCols
          invariant |row| == j
          invariant forall b | 0 <= b < j :: row[b] == BoxCell(x, y, cellSizeX, cellSizeY, i, b)
        {
          row := row + [BoxCell(x, y, cellSizeX, cellSizeY, i, j)];
          j := j + 1;
        }
        grid := grid + [row];
        i := i + 1;
      }
      cells := grid;
    }

    /** __break_entrance_and_entrance: open the top wall of the first cell,
        then the bottom wall of the last one; nothing else changes. */
    method BreakEntranceAndExit()
      requires numRows > 0 && numCols > 0 && |cells| == numRows && forall i | 0 <= i < numRows :: |cells[i]| == numCols
      modifies this`cells
      ensures cells == SetOldWall(SetOldWall(old(cells), 0, 0, "top", false), numRows - 1, numCols - 1, "bottom", false)
      ensures !cells[0][0].walls["top"] && !cells[numRows - 1][numCols - 1].walls["bottom"]
    {
      cells := SetOldWall(cells, 0, 0, "top", false);
      cells := SetOldWall(cells, numRows - 1, numCols - 1, "bottom", false);
    }
  }
}
