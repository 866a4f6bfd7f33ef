# maze_solver in Dafny

A model of the maze generator and solvers of EMBradley/maze_solver.

The repository's `Maze` class (src/maze.py) does four things:

- It builds a grid of `num_rows` by `num_cols` cells. Each cell has four walls, a visited flag, a parent and g, h and f scores.
- It opens an entrance at the top of the first cell and an exit at the bottom of the last.
- It carves a perfect maze with a randomised depth-first backtracker.
- It solves the maze by breadth-first search, depth-first search or A* with corridor compression.

The top-level maze.py and cell.py are an earlier copy. They only build the grid, with string-named walls and the row index on the x axis, and open the entrance and the exit. They are modelled separately.

How the model is arranged:

- `Cell` (cell.dfy) holds the cell record.
  - A cell is a datatype value.
  - The parent is an optional grid position, not an object reference.
  - Scores are `Fin(int) | Inf`. Every finite score the program computes is integral, and `Plus` keeps infinity absorbing, as float addition does.
- `MazeGrid` (grid.dfy) holds the grid, a `seq<seq<Cell>>`, and the pure helpers:
  - `opposite_direction`;
  - `__get_neighbor`;
  - the two neighbour filters;
  - cell creation;
  - `reset`.
- `MazeGraph` (graph.dfy) gives the reference definitions everything is proved against:
  - open moves and paths from the start;
  - parent chains (`Reaches`);
  - the spanning-tree shape of a generated maze.
- `MazeCarving` (carving.dfy) and the module-level methods of `Maze` (maze.dfy) model `__break_walls`.
  - Its loop is a `while` over an explicit stack and a `cameFrom` map.
  - `random.shuffle` is modelled as an arbitrary permutation, chosen by `:|`, so every result holds for every shuffle.
- `MazeSearch`, `MazeFrontier` and `MazeAStar` hold the loop invariants of the three solvers.
- `MazeSolvers` holds the solvers themselves.
  - They are imperative methods with `while`/`for` loops over a queue, a stack or a heap. `__find_next_branch` is one of them.
  - `PriorityQueue.Heap` is the `Heap` wrapper, kept abstract as a multiset with least-first removal in Python's tuple order.
- The class `Maze.Maze` holds `cells` and carries `__init__`, `__break_entrance_and_exit`, `__break_walls`, `reset`, `bfs`, `dfs` and `a_star` as methods that update it.
  - Ghost fields `tree` and `rank` record the carves generation made.
- `LegacyCell` and `LegacyMaze` model the earlier copy.
  - `LegacyMaze.Maze.CreateCells` keeps its nested loops.

The solver contracts are stated for a grid whose search fields are cleared, as `reset` and construction leave them (`GridCleared`). The source does not demand this, so it is a hypothesis of each ensures and not a precondition. Under that hypothesis, for each solver:

- success means the goal's parent links lead back to the start along open moves;
- failure means no path from the start reaches the goal;
- on a generated maze the search succeeds.

Three facts of the code that the model keeps as they are:

- The h score is `num_cols - i + num_rows - j` (src/maze.py:127). On every grid, square or not, that is the Manhattan distance from (i, j) to the goal plus 2.
- bfs overwrites the parent and g score of every accessible neighbour, with no "better score" guard (src/maze.py:249-252). As pushed, the goal's g score counts its parent links. No shortest-path claim is made.
- a_star returns False on a grid of one cell, where bfs and dfs return True when no animation delay is set; see Findings.

## Model

| member | source | states |
|---|---|---|
| Cell.NewCell | src/cell.py:26-41 | a new cell has all four walls standing, is unvisited, has no parent, has g and f infinite and h zero, and has the given corners |
| Cell.AllDirectionsListed | src/cell.py:9 | a map that names Up, Down, Left and Right has every direction as a key: the enumeration has exactly those four values |
| Cell.Center | src/cell.py:43-48 | get_center is the floor midpoint: twice each coordinate is within one below the sum of the two corners, and it lies inside the box when the corners are ordered |
| Cell.Plus | src/maze.py:348-350 | adding to a score keeps infinity infinite and adds exactly k to a finite score |
| MazeGrid.Opposite | src/maze.py:11-21 | the opposite direction differs from its input, and it pairs Up with Down and Left with Right |
| MazeGrid.OppositeInvolution | src/maze.py:11-21 | taking the opposite twice gives back the direction |
| MazeGrid.Neighbor | src/maze.py:181-190 | the neighbour keeps its direction tag; a vertical step keeps the column and a horizontal one the row; Down and Right add one, Up and Left subtract one |
| MazeGrid.StepInverse | src/maze.py:181-190 | stepping in a direction and then in its opposite returns to the start |
| MazeGrid.StepInjective | src/maze.py:181-190 | two different directions never lead to the same position |
| MazeGrid.ScanIndex | src/maze.py:195-200 | every direction has a place in the scan order Down, Right, Up, Left |
| MazeGrid.ScanOrderIsComplete | src/maze.py:195-200 | the scan lists every direction, and none twice |
| MazeGrid.UnvisitedFrom | src/maze.py:202-210 | scanning from place k keeps exactly the in-bounds, unvisited neighbours whose directions come at or after place k |
| MazeGrid.UnvisitedNeighbors | src/maze.py:192-212 | each entry is the tagged neighbour in its direction; a neighbour is listed exactly when it lies in the grid and is unvisited |
| MazeGrid.UnvisitedFromInScanOrder | src/maze.py:202-210 | the filter from place k lists its entries in strictly increasing scan order |
| MazeGrid.UnvisitedInScanOrder | src/maze.py:192-212 | the unvisited neighbours come in the order Down, Right, Up, Left |
| MazeGrid.Positions | src/maze.py:216-220 | dropping the direction tags keeps the length and the position of every entry |
| MazeGrid.KeepOpen | src/maze.py:216-220 | the filter is a subsequence of the neighbour positions; it keeps every neighbour whose wall is down and nothing else |
| MazeGrid.AccessibleNeighbors | src/maze.py:214-221 | a subsequence of the unvisited neighbours; a neighbour is listed exactly when the move to it is open and it is unvisited |
| MazeGrid.CreateCell | src/maze.py:121-128 | create_cell gives a cell with all four walls standing, unvisited, with no parent and g and f infinite; its box is one cell size wide and high, at column j along x and row i along y; its h score is num_cols - i + num_rows - j |
| MazeGrid.CreateCells | src/maze.py:130-133 | the grid has num_rows rows of num_cols cells, each with its four walls |
| MazeGrid.CreatedLayout | src/maze.py:120-133 | every created cell is fully walled and cleared, with h = cols - i + rows - j; the boxes have the cell size and tile the area, columns along x and rows along y, from (x, y); h falls by one per step down or right |
| MazeGrid.CreatedHeuristic | src/maze.py:127 | the h score of every created cell is its Manhattan distance to the goal (rows - 1, cols - 1) plus 2, on grids of every shape |
| MazeGrid.UpdateEffect | src/maze.py:154-157 | replacing one cell in place changes that cell only |
| MazeGrid.SetWallEffect | src/maze.py:154-155 | setting one wall changes that wall of that cell only |
| MazeGrid.SetVisitedEffect | src/maze.py:157 | marking one cell visited changes its flag only |
| MazeGrid.ResetCell | src/maze.py:169-173 | reset_cell clears the visited flag, the parent and the g and f scores, and keeps the walls, the box and the h score; a cell already cleared is left unchanged |
| MazeGrid.ResetGrid | src/maze.py:166-175 | after reset every cell is unvisited, with no parent and g and f infinite; walls, boxes and h scores are unchanged |
| MazeGrid.ResetOfClearedIsIdentity | src/maze.py:166-175 | resetting a grid that is already cleared changes nothing |
| MazeGrid.ResetIdempotent | src/maze.py:166-175 | resetting twice is resetting once |
| MazeGrid.NewCellIsReset | src/cell.py:37-41 | a new cell is already in the state reset leaves |
| MazeGraph.ClosedHoldsPathEnds | src/maze.py:232-255 | if the visited cells hold the start and no open move leaves them, every path from the start ends at a visited cell |
| MazeGraph.ParentPath | src/maze.py:325-327 | a parent chain of length k spells out a path of k + 1 cells from the start, each cell's parent being the one before it |
| MazeGraph.SpanningTreeOfSameLayout | src/maze.py:81-82 | being a perfect maze depends on the walls alone, so reset keeps it |
| MazeGraph.SpanningTreeSize | src/maze.py:142-164 | a spanning tree has exactly rows * cols - 1 carves, one per cell but the start |
| MazeGraph.CarvesAreDistinctEdges | src/maze.py:152-157 | no two carves open the same passage: a parent is never carved from its own child |
| MazeGraph.TreePath | src/maze.py:142-164 | in a rooted carving every cell is the end of a path from the start down the tree |
| MazeGraph.AllVisited | src/maze.py:142-164 | with the start visited and every grid neighbour of a visited cell visited, every cell is visited |
| MazeCarving.CarveEffect | src/maze.py:152-157 | one carve opens exactly the wall of the parent in direction d and the child's wall in the opposite direction, marks the child visited and changes nothing else |
| MazeCarving.CarveStep | src/maze.py:152-157 | one carve into an unvisited neighbour of a visited cell keeps the layout and the carving record, and adds exactly one new carve |
| MazeCarving.CarvedBound | src/maze.py:142-164 | there are never more carves than cells |
| MazeCarving.PoppedInBounds | src/maze.py:149-150 | the popped position is a cell of the grid |
| MazeCarving.PopKeepsFrontier | src/maze.py:149-157 | after the pop, every unvisited neighbour of a visited cell other than the popped one is still on the stack |
| MazeCarving.PushKeepsLinks | src/maze.py:161-164 | pushing a neighbour of the visited current cell, recorded in came_from, keeps every stacked cell the start or linked to a visited pusher |
| MazeCarving.ShuffledNeighbors | src/maze.py:159-160 | any shuffle of the unvisited neighbours holds only unvisited neighbours of the current cell |
| MazeCarving.PushedNeighborsCloseFrontier | src/maze.py:159-164 | once the unvisited neighbours are pushed, in any order, every unvisited neighbour of every visited cell is on the stack |
| MazeCarving.CarvingFinished | src/maze.py:148-164 | when the stack is empty every cell is visited and the carves form a spanning tree of the grid |
| PriorityQueue.LexLeTotalOrder | src/maze.py:337-340 | the order of (f, i, j) tuples is reflexive, total, antisymmetric and transitive |
| PriorityQueue.MinExists | src/maze.py:41-43 | every non-empty heap has a least entry |
| PriorityQueue.MinUnique | src/maze.py:41-43 | the least entry is unique, so the pop is determined |
| PriorityQueue.Heap.constructor | src/maze.py:29-35 | the heap holds exactly the given entries, and none for an empty array |
| PriorityQueue.Heap.Push | src/maze.py:37-39 | push adds exactly the one entry |
| PriorityQueue.Heap.Pop | src/maze.py:41-43 | pop returns the least entry in tuple order and removes exactly that one |
| MazeSearch.PathOfSameLayout | src/maze.py:223-288 | the searches change no wall, so a path of the maze stays a path |
| MazeSearch.StampBound | src/maze.py:232-255 | each cell is visited at most once, so at most rows * cols cells are visited |
| MazeSearch.StampedReaches | src/maze.py:243-252 | from a visited cell the sound parent links reach the start; when every linked cell scores one more than its parent, the g score is the number of links |
| MazeSearch.LinksReach | src/maze.py:236-238 | the same from any cell that is the start or has a parent |
| MazeSearch.Unreachable | src/maze.py:232-255 | with an empty worklist and the visited cells closed under moves, no path from the start ends at an unvisited cell |
| MazeSearch.VisitEffect | src/maze.py:243 | marking the popped cell visited changes its flag only and stamps it once |
| MazeSearch.LinksAfterVisit | src/maze.py:243-247 | marking visited a cell that is the start or has a parent keeps every parent link sound |
| MazeSearch.RelinkKeepsLinks | src/maze.py:249-253 | linking unvisited neighbours to the expanded cell keeps the parent links sound |
| MazeSearch.RelinkKeepsScores | src/maze.py:249-252 | giving each relinked neighbour the g score of the expanded cell plus one keeps every linked cell one more than its parent, the start 0 |
| MazeSearch.ExpandKeepsFrontier | src/maze.py:249-253 | after an expansion every open move out of the visited cells ends at a worklist position, and every entry but the start has a parent |
| MazeSearch.SettledKept | src/maze.py:249-252 | a cell visited before the expansion keeps its parent and its g score |
| MazeSearch.BfsStart | src/maze.py:228-230 | with the start scored 0 and queued, the loop of bfs starts from its invariant |
| MazeSearch.BfsSkip | src/maze.py:240-241 | dropping a popped visited cell keeps the invariant of bfs |
| MazeSearch.AccessibleAreMoves | src/maze.py:214-221 | every accessible neighbour is an unvisited cell one open move away |
| MazeSearch.BfsExpanded | src/maze.py:243-253 | visiting the popped cell and linking, scoring and queueing its accessible neighbours keeps the invariant of bfs |
| MazeSearch.DfsStart | src/maze.py:262 | with the start alone on the stack, the loop of dfs starts from its invariant |
| MazeSearch.DfsExpanded | src/maze.py:264-286 | popping, visiting unless visited, and pushing the linked accessible neighbours keeps the invariant of dfs |
| MazeSearch.Reversed | src/maze.py:283 | the reversal puts entry k at the far end |
| MazeSearch.ReversedMembers | src/maze.py:283 | reversal keeps exactly the entries |
| MazeSearch.RevisitShrinks | src/maze.py:264-286 | popping a visited entry and pushing unvisited ones lowers the count of visited entries on the stack |
| MazeFrontier.StepGrid | src/maze.py:301-307 | one turn of the corridor loop links the next cell to the current one and marks the current one visited, and changes nothing else |
| MazeFrontier.StepShrinks | src/maze.py:300-309 | a turn never unmarks a cell, and it leaves one cell fewer unvisited when the current one was unvisited |
| MazeFrontier.NextOfCorridor | src/maze.py:300-301 | the single accessible neighbour is an unvisited cell, other than the current one, one open move away |
| MazeFrontier.WalkOn | src/maze.py:300-309 | a walk goes on by one more turn of the loop |
| MazeFrontier.WalkMarked | src/maze.py:300-309 | a walk changes only flags and parents; the cells it leaves are visited; no link is lost; the cell it stands on, if reached by a move, is linked and unvisited |
| MazeFrontier.WalkLeads | src/maze.py:300-309 | every open move out of a cell the walk left, into a cell still unvisited, ends where the walk stands |
| MazeFrontier.WalkStamped | src/maze.py:307 | the cells the walk leaves are stamped in order after every earlier stamp |
| MazeFrontier.WalkLinked | src/maze.py:301-303 | a walk from the start or a linked cell keeps every link sound, and ends at the start or a linked cell |
| MazeFrontier.WalkAvoidsGoal | src/maze.py:311-312 | a walk never leaves the goal behind |
| MazeFrontier.StepMarked | src/maze.py:301-307 | a turn of the corridor loop after changes of flags and links only is again a change of flags and links only |
| MazeFrontier.StepKeepsHead | src/maze.py:301-307 | a turn of the corridor loop never relinks the cell the walk started from |
| MazeFrontier.WalkKeepsHead | src/maze.py:300-309 | a walk leaves the parent of its first cell as it found it |
| MazeFrontier.WalkLeavesHead | src/maze.py:307 | a walk that has moved has left its first cell visited |
| MazeAStar.OneCell | src/maze.py:354 | a grid with two distinct cells has the start apart from the goal |
| MazeAStar.OneCellPath | src/maze.py:330-367 | in a grid of one cell the start is the goal and the one-cell walk is a path that ends at the goal |
| MazeAStar.RescoredKeeps | src/maze.py:362-363 | changing scores only keeps the layout, the visit stamps and the parent links |
| MazeAStar.SetScoreEffect | src/maze.py:335-336 | setting the g or f score of one cell changes only that score |
| MazeAStar.AStarStart | src/maze.py:334-337 | with the start scored g = 1 and f = g + h and pushed alone, the loop of a_star starts from its invariant |
| MazeAStar.AStarSkip | src/maze.py:342-343 | dropping a popped visited cell keeps the invariant of a_star |
| MazeAStar.AStarVisitStart | src/maze.py:340-348 | marking the popped cell visited starts the loop over its accessible neighbours from its invariant |
| MazeAStar.VisitFringe | src/maze.py:346-348 | once the expanded cell is visited, the moves out of it end at its accessible neighbours |
| MazeAStar.RelinkFrame | src/maze.py:349 | giving a neighbour the expanded cell as its parent keeps the frame of a_star |
| MazeAStar.RelinkOne | src/maze.py:349 | giving a neighbour the expanded cell as its parent keeps the invariant of the neighbour loop |
| MazeAStar.CorridorKeeps | src/maze.py:351 | the corridor walk from the neighbour keeps the invariant, with the branch cell to be dealt with in its place |
| MazeAStar.FringeDrop | src/maze.py:359-360 | a branch cell whose f score is finite is no longer owed a heap entry |
| MazeAStar.QueuedAdd | src/maze.py:361 | pushing an entry adds exactly its cell to the queued cells |
| MazeAStar.PushFrame | src/maze.py:361-363 | recording the new f and g scores of the branch cell keeps the frame of a_star |
| MazeAStar.PushedHere | src/maze.py:359-363 | when g_new + h is below the branch cell's f score, exactly the entry (g_new + h, i, j) is pushed and the cell takes f = g_new + h and g = g_new |
| MazeAStar.PushedNot | src/maze.py:359-360 | when g_new + h is not below the branch cell's f score, the heap and the cell's g and f scores stay as they were |
| MazeAStar.RelaxWalk | src/maze.py:349-351 | giving the neighbour its parent and walking its corridor changes only flags and links, marks visited exactly the cells the walk leaves, keeps the neighbour linked to the expanded cell, and, when the start was visited and is not the neighbour, keeps it visited with its scores and does not end the walk there |
| MazeAStar.RelaxWalked | src/maze.py:349-351 | the same two steps keep the frame of a_star with the walk's stamps and, on a reset grid, the invariant of the neighbour loop with the branch cell excused |
| MazeAStar.RelaxDone | src/maze.py:351-363 | scoring the branch cell as a_star does completes one relaxation: the neighbour stays linked to the expanded cell, the walked cells are marked, and the goal or the pushed entry carries g_new = g + 1 plus one per cell walked; a visited start keeps its scores |
| MazeAStar.SkipKeepsStart | src/maze.py:342-343 | a skipped visited entry, popped while the start was visited or queued alone, leaves the start visited |
| MazeAStar.VisitKeepsStart | src/maze.py:346 | marking the popped cell visited, when the start was visited or queued alone, leaves the start visited with its g and f scores |
| MazeAStar.PushKeeps | src/maze.py:359-363 | pushing the branch cell with its lower f score and recording its scores keeps the invariant of the neighbour loop |
| MazeAStar.EmptyHeapEncloses | src/maze.py:339-367 | when the heap is empty, the start is visited and no open move leaves the visited cells |
| MazeAStar.MarkedLayout | src/maze.py:300-309 | the corridor walk's marking keeps the layout |
| MazeSolvers.BfsRelax | src/maze.py:249-253 | every accessible neighbour gets the current cell as parent and its g score plus one, and is appended, in order; no other cell changes |
| MazeSolvers.BfsVisit | src/maze.py:233-253 | one round keeps the invariant of bfs; either a new cell is visited or the queue shrinks; a visited cell keeps its parent and g score |
| MazeSolvers.BfsSearch | src/maze.py:223-255 | on a reset grid, success means the goal's parent chain reaches the start and the goal's g score is its length; failure means no path reaches the goal; walls, boxes and h are unchanged |
| MazeSolvers.DfsPush | src/maze.py:283-286 | the accessible neighbours, last one first, get the current cell as parent and are pushed, so the first one ends on top |
| MazeSolvers.DfsPop | src/maze.py:265-275 | the top is popped and marked visited unless it was; a newly visited cell gets the next stamp |
| MazeSolvers.DfsExpand | src/maze.py:277-286 | linking and pushing the accessible neighbours keeps the invariant of dfs and every visited cell's parent |
| MazeSolvers.DfsVisit | src/maze.py:264-286 | one round keeps the invariant of dfs; either a new cell is visited or the stack holds one visited entry fewer |
| MazeSolvers.DfsSearch | src/maze.py:257-288 | on a reset grid, success means the goal's parent chain reaches the start; failure means no path reaches the goal |
| MazeSolvers.CorridorTurn | src/maze.py:300-309 | one turn of the corridor loop extends the walk by the single accessible neighbour, which is unvisited, and leaves no more cells unvisited |
| MazeSolvers.FindNextBranch | src/maze.py:290-314 | the walk starts at (i, j) and ends at the goal or at a cell with other than one accessible neighbour; the result score is the given one plus the number of steps |
| MazeSolvers.AStarRelax | src/maze.py:349-363 | one neighbour's relaxation: the neighbour gets the expanded cell as its parent, and the walk from it marks visited exactly the cells it leaves; the search ends exactly when the walk ends at the goal, which takes g_new = g + 1 plus one per cell walked, with the heap untouched and, on a reset grid, a parent chain back to the start; otherwise the branch cell is pushed with g_new + h and takes both scores exactly when that is below its f score, and the heap and its scores stay otherwise; the invariant is kept, and a visited start keeps its scores |
| MazeSolvers.AStarWalk | src/maze.py:349-351 | the neighbour gets the expanded cell as its parent and its corridor is walked; the walk's end has g score g + 1 plus one per cell walked; only flags and links change, the walked cells are marked, and a visited start is left alone |
| MazeSolvers.AStarBranch | src/maze.py:354-363 | the goal ends the search with its g score set and the heap untouched; any other branch cell is pushed with g_new + h exactly when that is below its f score, and then takes both scores; no other cell's scores change and the invariant is kept |
| MazeSolvers.AStarNeighbor | src/maze.py:349-363 | AStarRelax's whole contract inside the neighbour loop, with every cell stamped since the expansion stamped after the expanded cell |
| MazeSolvers.AStarExpand | src/maze.py:348-365 | the loop over the accessible neighbours keeps the invariant of a_star until a neighbour's walk reaches the goal, and leaves a visited start with its scores |
| MazeSolvers.AStarVisit | src/maze.py:339-365 | one round keeps the invariant of a_star or reaches the goal; otherwise a new cell is visited or the heap shrinks; a start that was visited, or queued alone, ends visited with its scores |
| MazeSolvers.AStarSearch | src/maze.py:330-367 | as written: the start keeps its seed g = 1 and f = 1 + h; success only when the start is not the goal; on a reset grid, success means the goal's parent chain reaches the start, and failure on a grid of more than one cell means no path reaches the goal |
| MazeSolvers.AStarCorrected | src/maze.py:330-367 | a_star with the start-is-goal check: on a reset grid, success means the goal's parent chain reaches the start, and failure means no path reaches the goal, on every grid; off a one-cell grid the start keeps g = 1 and f = 1 + h |
| Maze.VisitTop | src/maze.py:149-157 | the pop carves the popped cell from the cell recorded in came_from when it is new, or changes nothing but the stack; the carving invariants hold afterwards |
| Maze.PushNeighbors | src/maze.py:161-164 | the neighbours are pushed in the given order with the current cell recorded in came_from, keeping the stack links |
| Maze.CarvePassages | src/maze.py:142-164 | for every shuffle, carving changes only inner walls and visited flags, leaves every cell visited, and the carves form a spanning tree of the grid |
| Maze.CreatedWallsUp | src/maze.py:120-133 | every wall of a freshly created grid stands |
| Maze.CreatedUnvisited | src/maze.py:120-133 | every cell of a freshly created grid is unvisited |
| Maze.ReadyToCarve | src/maze.py:79-81 | after the breach no cell is visited and every inner wall stands |
| Maze.OuterWallsAfterCarving | src/maze.py:79-82 | after carving and reset the outer walls stand but for the entrance and the exit |
| Maze.BoxesAfterCarving | src/maze.py:79-82 | the breach, carving and reset keep every box and h score |
| Maze.Constructed | src/maze.py:61-83 | construction leaves every cell cleared, the boxes as created, the outer walls standing but for entrance and exit, and a spanning tree of rows * cols - 1 carves |
| Maze.SolvableMaze | src/tests.py:26-36 | in a perfect maze some path from the start reaches the goal |
| Maze.Maze.constructor | src/maze.py:61-83 | under the asserts of __init__, the maze is a perfect maze of the given shape, with every search field cleared, the created boxes, and the outer walls standing but for the entrance and the exit |
| Maze.Maze.BreakEntranceAndExit | src/maze.py:135-140 | the Up wall of the first cell and the Down wall of the last are opened and nothing else changes |
| Maze.Maze.BreakWalls | src/maze.py:142-164 | every cell ends visited and the walls form a spanning tree; boxes, h scores, search fields and outer walls are unchanged |
| Maze.Maze.Reset | src/maze.py:166-175 | every cell is cleared and the layout is unchanged |
| Maze.Maze.Bfs | src/maze.py:223-255 | on a reset grid: success leaves a parent chain from the goal whose length is the goal's g score; failure means no path reaches the goal; a generated maze is always solved; the layout is unchanged |
| Maze.Maze.Dfs | src/maze.py:257-288 | on a reset grid: success leaves a parent chain from the goal; failure means no path reaches the goal; a generated maze is always solved; the layout is unchanged |
| Maze.Maze.AStar | src/maze.py:330-367 | the start keeps its seed g = 1 and f = 1 + h; success only when the start is not the goal; on a reset grid success leaves a parent chain from the goal, failure on a grid of more than one cell means no path reaches the goal, and a generated maze of more than one cell is always solved |
| LegacyCell.NewOldCell | cell.py:22-34 | a new cell has exactly the walls "top", "bottom", "left" and "right", all standing, is unvisited, and has the given corners |
| LegacyCell.OldCenter | cell.py:36-41 | get_center is the floor midpoint, inside the box when the corners are ordered |
| LegacyCell.OldCenterUnique | cell.py:36-41 | the rounding bounds determine the centre |
| LegacyCell.CentersAgree | cell.py:36-41 | the earlier and the later cell put the centre of the same box at the same point |
| LegacyMaze.SetOldWall | maze.py:73-74 | setting one named wall changes that wall of that cell only |
| LegacyMaze.BoxCell | maze.py:45-49 | the earlier copy's cell at [i][j] has its four named walls standing, is unvisited, and spans one cell size from (x + cell_size_x * i, y + cell_size_y * j) |
| LegacyMaze.CreatedTiles | maze.py:39-51 | adjacent created boxes share an edge, rows along x and columns along y |
| LegacyMaze.BreachedWalls | maze.py:69-74 | after the breach every wall stands but the top of the first cell and the bottom of the last, and nothing else changes |
| LegacyMaze.Maze.constructor | maze.py:22-37 | under the asserts of __init__, the grid has num_rows rows of num_cols created cells, all unvisited, with every wall standing but the entrance and the exit |
| LegacyMaze.Maze.CreateCells | maze.py:39-51 | the nested loops build num_rows rows of num_cols cells, cell [i][j] spanning from (x + cell_size_x * i, y + cell_size_y * j) by one cell size |
| LegacyMaze.Maze.BreakEntranceAndExit | maze.py:69-74 | the "top" wall of the first cell and the "bottom" wall of the last are set to False, nothing else changes |

## Left out

- Drawing and animation are not modelled, because they are rendering side effects: `__animate`, `__draw_cells`, `__undo_path`, `__draw_end_to_start`, `Cell.draw`, `Cell.draw_move`, and the drawing inside the earlier `__create_cells` and `__break_entrance_and_entrance`. The window parameter is dropped. Drawing changes no cell state in the source, so no state is lost. The earlier copy's `assert self.__window is not None` in draw is not modelled.
- The animation factor of `__draw_end_to_start` (src/maze.py:320-323) is not modelled, because it only sets the display delay. The one exception: on a grid of one cell bfs reaches the goal with g score 0 (src/maze.py:230, 236-237). With an animation delay set, the division at src/maze.py:323 then raises ZeroDivisionError, and bfs raises instead of returning True.
- Maze.Maze.Bfs: models bfs with no animation delay, so on a grid of one cell it returns True where the source, with a delay set, raises ZeroDivisionError (see the line above).
- src/graphics.py, src/gui.py, main.py and src/main.py are not part of this model. They are tkinter plumbing and entry points.
- `random.seed` and the random generator are not modelled. `random.shuffle` becomes an arbitrary permutation, and every property holds for all of them.
- The binary-heap layout behind `heapq` is not modelled. Only its least-first order on (f, i, j) tuples is kept.
- Float scores become integers plus an explicit infinity. This is exact for every score the program computes, since all of them are whole numbers or infinity.
- The cell objects of the source become values in the grid and the parent becomes a position. Nothing in the source shares a cell between two grid slots, so no aliasing is lost.
- MazeSolvers.AStarSearch: does not state that the goal's g score counts its parent links, nor that A* finds a shortest path. A relaxation sets the parent of the neighbour (src/maze.py:349) and of every cell its walk enters (src/maze.py:302-303) with no guard. A g score changes only at the goal (src/maze.py:354-355) or under the `f_new < f_score` guard (src/maze.py:359-363). So a cell entered again by a later walk can take a new parent and keep its older g score, and g scores and parent chains need not agree.
- Maze.Maze.AStar: the same, for the same reason; it also does not relate the A* path length to the length bfs finds.
- Maze.Maze.Dfs: dfs sets no g scores, so none are stated.
- MazeSolvers.BfsSearch: the goal's g score counts its parent links, but it is not claimed to be a shortest distance, because relaxations overwrite parents unconditionally.
- The Python asserts of both `Maze.__init__` methods are modelled as preconditions of the constructors. The assertion failures are not modelled.

## Findings

| source | as written | input that shows it | evidently intended | confidence | as-written member | corrected member |
|---|---|---|---|---|---|---|
| src/maze.py:330-367 | a_star only checks for the goal at the end of a corridor walk from a neighbour of the popped cell, never the popped cell itself, so it returns False when the start is the goal | num_rows = num_cols = 1: the start is the goal and has no accessible neighbour, so the heap empties and a_star returns False, while bfs and dfs, with no animation delay, return True | a_star returns True there, as bfs and dfs with no animation delay do | not executed | MazeSolvers.AStarSearch (with MazeAStar.OneCellPath) | MazeSolvers.AStarCorrected |

`AStarSearch` ensures `found ==> Start != Goal(rows, cols)`. `OneCellPath` shows that on the 1×1 grid the one-cell walk is a path to the goal, so a reported failure there is wrong. `AStarCorrected` adds the missing start-is-goal check. It is proved to fail only when no path reaches the goal. The class method `Maze.Maze.AStar` keeps the source's behaviour, so it models `a_star` as written.
