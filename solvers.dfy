/** The three solvers of src/maze.py (bfs, dfs, a_star with its corridor
    helper __find_next_branch) as methods on grid values. Each is proved
    against the search invariants of MazeSearch; the `Maze` class runs
    them on its `cells`. */
module MazeSolvers {
  import opened Cell
  import opened MazeGrid
  import opened MazeGraph
  import opened MazeSearch
  import opened MazeFrontier
  import opened MazeAStar
  import opened PriorityQueue

  /** The inner loop of bfs: every accessible neighbour `q` of `c`, in
      order, gets `c` as its parent and the g score of `c` plus one, and is
      appended to the queue. */
  method BfsRelax(g: Grid, rows: int, cols: int, c: Pos, ns: seq<Pos>, queue: seq<Pos>)
    returns (g2: Grid, queue2: seq<Pos>)
    requires WellFormed(g, rows, cols) && InBounds(rows, cols, c) && InGrid(rows, cols, ns) && c !in ns
    ensures WellFormed(g2, rows, cols) && queue2 == queue + ns
    ensures Relinked(g, g2, rows, cols, c, ns)
    ensures forall p | InBounds(rows, cols, p) ::
              At(g2, p).g == if p in ns then Plus(At(g, c).g, 1) else At(g, p).g
  {
    g2, queue2 := g, queue;
    var m := 0;
    while m < |ns|
      invariant 0 <= m <= |ns| && WellFormed(g2, rows, cols) && queue2 == queue + ns[..m]
      invariant forall p | InBounds(rows, cols, p) ::
                  At(g2, p) == if p in ns[..m] then At(g, p).(parent := Some(c), g := Plus(At(g, c).g, 1)) else At(g, p)
    {
      var q := ns[m];
      assert q in ns;
      assert ns[..m + 1] == ns[..m] + [q];
      UpdateEffect(g2, rows, cols, q, At(g2, q).(parent := Some(c)));
      g2 := SetParent(g2, q, c);
      UpdateEffect(g2, rows, cols, q, At(g2, q).(g := Plus(At(g2, c).g, 1)));
      g2 := SetG(g2, q, Plus(At(g2, c).g, 1));
      queue2 := queue2 + [q];
      m := m + 1;
    }
    assert ns[..m] == ns;
  }

  /** One round of the loop of bfs once the goal test has failed: pop the
      head of the queue; drop it if visited, otherwise visit it and relax
      its accessible neighbours. Either a cell is stamped or the queue
      shrinks. */
  method BfsVisit(g0: Grid, g: Grid, rows: int, cols: int, queue: seq<Pos>, ghost tm: map<Pos, nat>, ghost n: nat)
    returns (g2: Grid, queue2: seq<Pos>, ghost tm2: map<Pos, nat>, ghost n2: nat)
    requires SearchFrame(g0, g, rows, cols, queue, tm, n) && |queue| > 0 && queue[0] != Goal(rows, cols)
    requires GridCleared(g0) ==> BfsInv(g, rows, cols, queue, tm)
    ensures SearchFrame(g0, g2, rows, cols, queue2, tm2, n2)
    ensures GridCleared(g0) ==> BfsInv(g2, rows, cols, queue2, tm2)
    ensures |tm2.Keys| > |tm.Keys| || (tm2 == tm && |queue2| < |queue|)
    ensures forall p | InBounds(rows, cols, p) && At(g, p).visited ::
              At(g2, p).visited && At(g2, p).parent == At(g, p).parent && At(g2, p).g == At(g, p).g
  {
    var c := queue[0];
    assert c in queue;
    if At(g, c).visited {
      if GridCleared(g0) {
        BfsSkip(g, rows, cols, queue, tm, n, c);
      }
      g2, queue2, tm2, n2 := g, queue[1..], tm, n;
      assert forall q | q in queue2 :: q in queue;
      return;
    }
    var g1 := SetVisited(g, c);
    tm2, n2 := tm[c := n], n + 1;
    VisitEffect(g, g1, rows, cols, tm, tm2, n, c);
    FlagsKeepLayout(g0, g, g1, rows, cols);
    var ns := AccessibleNeighbors(g1, rows, cols, c);
    AccessibleAreMoves(g1, rows, cols, tm2, n2, c, ns);
    g2, queue2 := BfsRelax(g1, rows, cols, c, ns, queue[1..]);
    assert forall q | q in queue[1..] :: q in queue;
    RelinkKeepsLayout(g0, g1, g2, rows, cols, c, ns);
    RelinkKeepsStamps(g1, g2, rows, cols, tm2, n2, c, ns);
    SettledKept(g, g1, g2, rows, cols, c, ns);
    if GridCleared(g0) {
      BfsExpanded(g, g1, g2, rows, cols, queue, tm, tm2, n, c, ns);
    }
  }

  /** bfs on a grid of `rows` by `cols` cells. On a reset grid: when it
      reports success, the parent links of the goal lead back to the start
      along open moves and the goal's g score counts them; when it reports
      failure, no path of the maze ends at the goal. */
  method BfsSearch(g0: Grid, rows: int, cols: int) returns (found: bool, g: Grid)
    requires WellFormed(g0, rows, cols) && rows > 0 && cols > 0
    ensures Layout(g0, g, rows, cols)
    ensures GridCleared(g0) && found ==>
              exists k: nat :: Reaches(g, rows, cols, Goal(rows, cols), k) && At(g, Goal(rows, cols)).g == Fin(k)
    ensures GridCleared(g0) && !found ==>
              forall path | IsPath(g0, rows, cols, path) :: path[|path| - 1] != Goal(rows, cols)
  {
    ghost var cleared := GridCleared(g0);
    g := SetG(g0, Start, Fin(0));
    var queue := [Start];
    ghost var tm := InitialStamps(g0, rows, cols);
    ghost var n: nat := 1;
    BfsStart(g0, g, rows, cols, tm);
    while |queue| > 0
      invariant SearchFrame(g0, g, rows, cols, queue, tm, n)
      invariant cleared ==> BfsInv(g, rows, cols, queue, tm)
      decreases rows * cols - |tm.Keys|, |queue|
    {
      StampBound(g, rows, cols, tm, n);
      var c := queue[0];
      if c == Goal(rows, cols) {
        if cleared {
          assert c in queue;
          ghost var k := LinksReach(g, rows, cols, tm, n, c);
        }
        return true, g;
      }
      g, queue, tm, n := BfsVisit(g0, g, rows, cols, queue, tm, n);
    }
    if cleared {
      Unreachable(g0, g, rows, cols, Goal(rows, cols));
    }
    return false, g;
  }

  /** The inner loop of dfs: the accessible neighbours of `c`, last one
      first, each get `c` as their parent and are pushed on the stack, so
      that the first neighbour ends on top. */
  method DfsPush(g: Grid, rows: int, cols: int, c: Pos, ns: seq<Pos>, stack: seq<Pos>)
    returns (g2: Grid, stack2: seq<Pos>)
    requires WellFormed(g, rows, cols) && InBounds(rows, cols, c) && InGrid(rows, cols, ns)
    ensures WellFormed(g2, rows, cols) && stack2 == stack + Reversed(ns)
    ensures forall q | q in stack2 :: q in stack || q in ns
    ensures forall q | q in stack || q in ns :: q in stack2
    ensures Relinked(g, g2, rows, cols, c, ns)
    ensures forall p | InBounds(rows, cols, p) :: At(g2, p).g == At(g, p).g
  {
    var rev := Reversed(ns);
    ReversedMembers(ns);
    g2, stack2 := g, stack;
    var m := 0;
    while m < |rev|
      invariant 0 <= m <= |rev| && WellFormed(g2, rows, cols) && stack2 == stack + rev[..m]
      invariant forall p | InBounds(rows, cols, p) ::
                  At(g2, p) == if p in rev[..m] then At(g, p).(parent := Some(c)) else At(g, p)
    {
      var q := rev[m];
      assert q in rev;
      assert rev[..m + 1] == rev[..m] + [q];
      UpdateEffect(g2, rows, cols, q, At(g2, q).(parent := Some(c)));
      g2 := SetParent(g2, q, c);
      stack2 := stack2 + [q];
      m := m + 1;
    }
    assert rev[..m] == rev;
  }

  /** The first half of a round of dfs: pop the top `c` of the stack and
      mark it visited unless it already was. */
  method DfsPop(g0: Grid, g: Grid, rows: int, cols: int, stack: seq<Pos>, ghost tm: map<Pos, nat>, ghost n: nat)
    returns (g1: Grid, rest: seq<Pos>, c: Pos, ghost tm1: map<Pos, nat>, ghost n1: nat)
    requires SearchFrame(g0, g, rows, cols, stack, tm, n) && |stack| > 0
    ensures stack == rest + [c] && InBounds(rows, cols, c) && InGrid(rows, cols, rest)
    ensures Layout(g0, g1, rows, cols) && Stamped(g1, rows, cols, tm1, n1) && At(g1, c).visited
    ensures FlagsOnly(g, g1, rows, cols) && VisitsOnly(g, g1, rows, cols, c)
    ensures At(g, c).visited ==> g1 == g && tm1 == tm && n1 == n
    ensures At(g, c).visited ==> VisitedEntries(g, rows, cols, rest) < VisitedEntries(g, rows, cols, stack)
    ensures !At(g, c).visited ==> tm1 == tm[c := n] && c !in tm && |tm1.Keys| == |tm.Keys| + 1
  {
    c := stack[|stack| - 1];
    assert c in stack;
    rest := stack[..|stack| - 1];
    SplitLast(stack);
    assert forall q | q in rest :: q in stack;
    if !At(g, c).visited {
      g1 := SetVisited(g, c);
      tm1, n1 := tm[c := n], n + 1;
      VisitEffect(g, g1, rows, cols, tm, tm1, n, c);
      FlagsKeepLayout(g0, g, g1, rows, cols);
    } else {
      g1, tm1, n1 := g, tm, n;
      VisitedEntriesAppend(g, rows, cols, rest, c);
    }
  }

  /** The second half of a round of dfs: link the accessible neighbours
      of the popped cell `c` to it and push them. */
  method DfsExpand(g0: Grid, g: Grid, g1: Grid, rows: int, cols: int, stack: seq<Pos>, rest: seq<Pos>, c: Pos,
                   ghost tm: map<Pos, nat>, ghost n: nat, ghost tm1: map<Pos, nat>, ghost n1: nat)
    returns (g2: Grid, stack2: seq<Pos>)
    requires SearchFrame(g0, g, rows, cols, stack, tm, n)
    requires stack == rest + [c] && InBounds(rows, cols, c) && InGrid(rows, cols, rest)
    requires Layout(g0, g1, rows, cols) && Stamped(g1, rows, cols, tm1, n1) && At(g1, c).visited
    requires FlagsOnly(g, g1, rows, cols) && VisitsOnly(g, g1, rows, cols, c)
    requires At(g, c).visited ==> g1 == g && tm1 == tm && n1 == n
    requires At(g, c).visited ==> VisitedEntries(g, rows, cols, rest) < VisitedEntries(g, rows, cols, stack)
    requires !At(g, c).visited ==> tm1 == tm[c := n] && c !in tm && c != Goal(rows, cols)
    requires GridCleared(g0) ==> DfsInv(g, rows, cols, stack, tm)
    ensures SearchFrame(g0, g2, rows, cols, stack2, tm1, n1)
    ensures GridCleared(g0) ==> DfsInv(g2, rows, cols, stack2, tm1)
    ensures At(g, c).visited ==> VisitedEntries(g2, rows, cols, stack2) < VisitedEntries(g, rows, cols, stack)
    ensures forall p | InBounds(rows, cols, p) && At(g, p).visited ::
              At(g2, p).visited && At(g2, p).parent == At(g, p).parent
  {
    var ns := AccessibleNeighbors(g1, rows, cols, c);
    AccessibleAreMoves(g1, rows, cols, tm1, n1, c, ns);
    g2, stack2 := DfsPush(g1, rows, cols, c, ns, rest);
    RelinkKeepsLayout(g0, g1, g2, rows, cols, c, ns);
    RelinkKeepsStamps(g1, g2, rows, cols, tm1, n1, c, ns);
    if At(g, c).visited {
      RevisitShrinks(g, g2, rows, cols, stack, rest, ns, stack2);
    }
    SettledKept(g, g1, g2, rows, cols, c, ns);
    if GridCleared(g0) {
      DfsExpanded(g, g1, g2, rows, cols, stack, rest, tm, tm1, n, n1, c, ns, stack2);
    }
  }

  /** One round of the loop of dfs once the goal test has failed: pop the
      top of the stack, visit it unless it already was, and push its
      accessible neighbours. Either a cell is stamped or the stack holds one
      visited entry fewer. */
  method DfsVisit(g0: Grid, g: Grid, rows: int, cols: int, stack: seq<Pos>, ghost tm: map<Pos, nat>, ghost n: nat)
    returns (g2: Grid, stack2: seq<Pos>, ghost tm2: map<Pos, nat>, ghost n2: nat)
    requires SearchFrame(g0, g, rows, cols, stack, tm, n) && |stack| > 0
    requires stack[|stack| - 1] != Goal(rows, cols) || At(g, Goal(rows, cols)).visited
    requires GridCleared(g0) ==> DfsInv(g, rows, cols, stack, tm)
    ensures SearchFrame(g0, g2, rows, cols, stack2, tm2, n2)
    ensures GridCleared(g0) ==> DfsInv(g2, rows, cols, stack2, tm2)
    ensures |tm2.Keys| > |tm.Keys|
            || (tm2 == tm && VisitedEntries(g2, rows, cols, stack2) < VisitedEntries(g, rows, cols, stack))
    ensures forall p | InBounds(rows, cols, p) && At(g, p).visited ::
              At(g2, p).visited && At(g2, p).parent == At(g, p).parent
  {
    var g1, rest, c;
    g1, rest, c, tm2, n2 := DfsPop(g0, g, rows, cols, stack, tm, n);
    g2, stack2 := DfsExpand(g0, g, g1, rows, cols, stack, rest, c, tm, n, tm2, n2);
  }

  /** dfs on a grid of `rows` by `cols` cells. On a reset grid: when it
      reports success, the parent links of the goal lead back to the start
      along open moves; when it reports failure, no path of the maze ends
      at the goal. */
  method DfsSearch(g0: Grid, rows: int, cols: int) returns (found: bool, g: Grid)
    requires WellFormed(g0, rows, cols) && rows > 0 && cols > 0
    ensures Layout(g0, g, rows, cols)
    ensures GridCleared(g0) && found ==> exists k: nat :: Reaches(g, rows, cols, Goal(rows, cols), k)
    ensures GridCleared(g0) && !found ==>
              forall path | IsPath(g0, rows, cols, path) :: path[|path| - 1] != Goal(rows, cols)
  {
    ghost var cleared := GridCleared(g0);
    g := g0;
    var stack := [Start];
    ghost var tm := InitialStamps(g0, rows, cols);
    ghost var n: nat := 1;
    DfsStart(g0, rows, cols, tm);
    while |stack| > 0
      invariant SearchFrame(g0, g, rows, cols, stack, tm, n)
      invariant cleared ==> DfsInv(g, rows, cols, stack, tm)
      decreases rows * cols - |tm.Keys|, VisitedEntries(g, rows, cols, stack)
    {
      StampBound(g, rows, cols, tm, n);
      var c := stack[|stack| - 1];
      assert c in stack;
      if !At(g, c).visited && c == Goal(rows, cols) {
        if cleared {
          ghost var k := LinksReach(g, rows, cols, tm, n, c);
        }
        return true, g;
      }
      g, stack, tm, n := DfsVisit(g0, g, rows, cols, stack, tm, n);
    }
    if cleared {
      Unreachable(g0, g, rows, cols, Goal(rows, cols));
    }
    return false, g;
  }

  /** One turn of the loop of __find_next_branch at `cur`, the end of the
      walk so far, short of the goal and with one accessible neighbour:
      that neighbour `next` gets `cur` as its parent and `cur` is marked
      visited. */
  method CorridorTurn(g: Grid, rows: int, cols: int, ghost grids: seq<Grid>, ghost path: seq<Pos>,
                      g2: Grid, cur: Pos)
    returns (next: Pos, g3: Grid)
    requires Walk(g, rows, cols, grids, path) && WellFormed(g2, rows, cols)
    requires path[|path| - 1] == cur && grids[|path| - 1] == g2 && InBounds(rows, cols, cur)
    requires cur != Goal(rows, cols) && |AccessibleNeighbors(g2, rows, cols, cur)| == 1
    ensures Walk(g, rows, cols, grids + [g3], path + [next]) && WellFormed(g3, rows, cols)
    ensures InBounds(rows, cols, next) && !At(g3, next).visited
    ensures |Unvisited(g3, rows, cols)| <= |Unvisited(g2, rows, cols)|
    ensures !At(g2, cur).visited ==> |Unvisited(g3, rows, cols)| < |Unvisited(g2, rows, cols)|
  {
    var ns := AccessibleNeighbors(g2, rows, cols, cur);
    next := ns[0];
    assert ns == [next];
    NextOfCorridor(g2, rows, cols, cur, next);
    g3 := StepGrid(g2, rows, cols, cur, next);
    StepShrinks(g2, g3, rows, cols, cur, next);
    WalkOn(g, rows, cols, grids, path, g3, next);
  }

  /** __find_next_branch(i, j, g): from cell (i, j), unless it is the
      goal, follow the corridor of cells with exactly one accessible
      neighbour, linking each cell to the one before and marking the one
      left visited, and stop at the goal or at the first cell with none
      or several accessible neighbours. The result is the cell reached,
      `gs` plus the number of steps taken, and the grid the walk leaves;
      `path` and `grids` are the cells walked and the grid at each. */
  method FindNextBranch(g: Grid, rows: int, cols: int, i: int, j: int, gs: Score)
    returns (k: int, l: int, gs2: Score, g2: Grid, ghost path: seq<Pos>, ghost grids: seq<Grid>)
    requires WellFormed(g, rows, cols) && InBounds(rows, cols, (i, j))
    ensures Walk(g, rows, cols, grids, path) && WellFormed(g2, rows, cols)
    ensures path[0] == (i, j) && path[|path| - 1] == (k, l) && grids[|path| - 1] == g2 && InBounds(rows, cols, (k, l))
    ensures gs2 == Plus(gs, |path| - 1)
    ensures (k, l) == Goal(rows, cols) || |AccessibleNeighbors(g2, rows, cols, (k, l))| != 1
  {
    k, l, gs2, g2, path, grids := i, j, gs, g, [(i, j)], [g];
    while (k, l) != Goal(rows, cols) && |AccessibleNeighbors(g2, rows, cols, (k, l))| == 1
      invariant Walk(g, rows, cols, grids, path) && WellFormed(g2, rows, cols)
      invariant path[0] == (i, j) && path[|path| - 1] == (k, l) && grids[|path| - 1] == g2
      invariant InBounds(rows, cols, (k, l)) && gs2 == Plus(gs, |path| - 1)
      invariant |path| > 1 ==> !At(g2, (k, l)).visited
      decreases |Unvisited(g2, rows, cols)|, if |path| == 1 then 1 else 0
    {
      var next, g3 := CorridorTurn(g, rows, cols, grids, path, g2, (k, l));
      k, l, gs2, g2, path, grids := next.0, next.1, Plus(gs2, 1), g3, path + [next], grids + [g3];
    }
  }

  /** a_star of src/maze.py on a grid: the start gets g score 1 and f
      score 1 plus its h score, and is pushed; rounds of AStarVisit follow
      until the goal is reached or the heap runs empty. On a reset grid
      success means the goal's parent chain leads back to the start, and
      failure with the start apart from the goal means no path reaches
      the goal. As written, a_star never reports success when the start is
      the goal: it only looks for the goal among the cells a corridor walk
      ends at. */
  method AStarSearch(g0: Grid, rows: int, cols: int) returns (found: bool, g: Grid)
    requires WellFormed(g0, rows, cols) && rows > 0 && cols > 0
    ensures Layout(g0, g, rows, cols)
    ensures found ==> Start != Goal(rows, cols)
    ensures GridCleared(g0) && found ==> exists k: nat :: Reaches(g, rows, cols, Goal(rows, cols), k)
    ensures GridCleared(g0) && !found && Start != Goal(rows, cols) ==>
              forall path | IsPath(g0, rows, cols, path) :: path[|path| - 1] != Goal(rows, cols)
    ensures At(g, Start).g == Fin(1) && At(g, Start).f == Fin(1 + At(g0, Start).h)
  {
    ghost var cleared := GridCleared(g0);
    g := SetG(g0, Start, Fin(1));
    SetScoreEffect(g0, rows, cols, Start, Fin(1), false);
    var f := At(g, Start).g.value + At(g, Start).h;
    assert f == 1 + At(g0, Start).h by {
      assert SameFrame(At(g0, Start), At(g, Start));
    }
    SetScoreEffect(g, rows, cols, Start, Fin(f), true);
    g := SetF(g, Start, Fin(f));
    var heap := new Heap([Entry(f, 0, 0)]);
    assert heap.contents == multiset{Entry(f, 0, 0)};
    ghost var tm := InitialStamps(g0, rows, cols);
    ghost var n: nat := 1;
    AStarStart(g0, g, rows, cols, tm, f);
    while |heap.contents| > 0
      invariant AStarFrame(g0, g, rows, cols, heap.contents, tm, n)
      invariant cleared ==> AStarInv(g, rows, cols, heap.contents, tm)
      invariant At(g, Start).g == Fin(1) && At(g, Start).f == Fin(f)
      invariant At(g, Start).visited || OnlyStart(heap.contents)
      decreases rows * cols - |tm.Keys|, |heap.contents|
    {
      StampBound(g, rows, cols, tm, n);
      found, g, tm, n := AStarVisit(g0, g, rows, cols, heap, tm, n);
      if found {
        return;
      }
      StampBound(g, rows, cols, tm, n);
    }
    if cleared && Start != Goal(rows, cols) {
      EmptyHeapEncloses(g, rows, cols, tm, n);
      Unreachable(g0, g, rows, cols, Goal(rows, cols));
    }
    found := false;
  }

  /** a_star with the check that bfs and dfs make on the popped cell and
      a_star leaves out: when the start is the goal the search succeeds at
      once. Failure then means, on a reset grid, that no path reaches the
      goal, with no exception for a grid of one cell. */
  method AStarCorrected(g0: Grid, rows: int, cols: int) returns (found: bool, g: Grid)
    requires WellFormed(g0, rows, cols) && rows > 0 && cols > 0
    ensures Layout(g0, g, rows, cols)
    ensures GridCleared(g0) && found ==> exists k: nat :: Reaches(g, rows, cols, Goal(rows, cols), k)
    ensures GridCleared(g0) && !found ==>
              forall path | IsPath(g0, rows, cols, path) :: path[|path| - 1] != Goal(rows, cols)
    ensures Start != Goal(rows, cols) ==> At(g, Start).g == Fin(1) && At(g, Start).f == Fin(1 + At(g0, Start).h)
  {
    if Start == Goal(rows, cols) {
      assert Reaches(g0, rows, cols, Goal(rows, cols), 0);
      return true, g0;
    }
    found, g := AStarSearch(g0, rows, cols);
  }

  /** One neighbour `q` of the expanded cell `c` in a_star: `q` gets `c`
      as its parent, the corridor from `q` is walked to the next branching
      cell `e` with the g score counted along, and then either `e` is the
      goal, which ends the search with its g score set, or `e` is pushed
      with its new f score when that is lower than its old one. */
  method AStarRelax(g0: Grid, g: Grid, rows: int, cols: int, heap: Heap, c: Pos, q: Pos,
                    ghost tc: map<Pos, nat>, ghost nc: nat, ghost ex: seq<Pos>)
    returns (found: bool, g2: Grid, ghost tc2: map<Pos, nat>, ghost nc2: nat, ghost walk: seq<Pos>)
    modifies heap
    requires AStarFrame(g0, g, rows, cols, heap.contents, tc, nc)
    requires InBounds(rows, cols, c) && InBounds(rows, cols, q) && q != c && Move(g, rows, cols, c, q)
    requires GridCleared(g0) ==> ExpandInv(g, rows, cols, heap.contents, tc, c, [q] + ex) && (q in tc ==> tc[c] < tc[q])
    ensures AStarFrame(g0, g2, rows, cols, heap.contents, tc2, nc2)
    ensures StampsExtend(tc, tc2, nc) && nc <= nc2
    ensures found ==> Start != Goal(rows, cols)
    ensures GridCleared(g0) && found ==> exists k: nat :: Reaches(g2, rows, cols, Goal(rows, cols), k)
    ensures GridCleared(g0) && !found ==> ExpandInv(g2, rows, cols, heap.contents, tc2, c, ex)
    ensures Relaxed(g, g2, rows, cols, old(heap.contents), heap.contents, c, q, walk, found)
    ensures At(g, Start).visited && q != Start ==> StartKept(g, g2, rows, cols)
  {
    var e, gs, g4, path := AStarWalk(g0, g, rows, cols, c, q, heap.contents, tc, nc, ex);
    walk := path;
    tc2, nc2 := WalkStamps(tc, nc, path).0, WalkStamps(tc, nc, path).1;
    if e == Goal(rows, cols) {
      OneCell(rows, cols, c, q);
    }
    ghost var h := heap.contents;
    found, g2 := AStarBranch(g0, g, g4, rows, cols, heap, c, e, gs, tc2, nc2, ex);
    RelaxDone(g, g4, g2, rows, cols, h, heap.contents, c, q, e, gs, path, found);
  }

  /** The first half of a relaxation in a_star: the neighbour `q` of the
      expanded cell `c` gets `c` as its parent, and the corridor from `q`
      is walked to the cell `e` it ends at, whose g score `gs` is that of
      `c` plus one per cell of the walk `path`. */
  method AStarWalk(g0: Grid, g: Grid, rows: int, cols: int, c: Pos, q: Pos, ghost h: multiset<Entry>,
                   ghost tc: map<Pos, nat>, ghost nc: nat, ghost ex: seq<Pos>)
    returns (e: Pos, gs: Score, g4: Grid, ghost path: seq<Pos>)
    requires AStarFrame(g0, g, rows, cols, h, tc, nc)
    requires InBounds(rows, cols, c) && InBounds(rows, cols, q) && q != c && Move(g, rows, cols, c, q)
    requires GridCleared(g0) ==> ExpandInv(g, rows, cols, h, tc, c, [q] + ex) && (q in tc ==> tc[c] < tc[q])
    ensures |path| > 0 && path[0] == q && path[|path| - 1] == e && gs == Plus(At(g, c).g, |path|)
    ensures var (tc2, nc2) := WalkStamps(tc, nc, path);
      && AStarFrame(g0, g4, rows, cols, h, tc2, nc2) && StampsExtend(tc, tc2, nc) && nc <= nc2
      && (GridCleared(g0) ==> ExpandInv(g4, rows, cols, h, tc2, c, ex + [e]))
    ensures WellFormed(g4, rows, cols) && InBounds(rows, cols, e)
    ensures Marked(g, g4, rows, cols) && NewVisits(g, g4, rows, cols, path)
    ensures At(g4, q).parent == Some(c) && At(g4, e).parent.Some?
    ensures At(g, Start).visited && q != Start ==> StartKept(g, g4, rows, cols) && e != Start
  {
    RelinkFrame(g0, g, rows, cols, tc, nc, c, q);
    var g3 := SetParent(g, q, c);
    var gn := Plus(At(g3, c).g, 1);
    var k, l; ghost var grids;
    k, l, gs, g4, path, grids := FindNextBranch(g3, rows, cols, q.0, q.1, gn);
    e := (k, l);
    RelaxWalked(g0, g, g3, g4, rows, cols, h, tc, nc, c, q, grids, path, ex);
  }

  /** The end of one relaxation in a_star, once the corridor walk has
      reached the cell `e` with g score `gs`: the goal takes that g score
      and ends the search; any other cell is pushed with f score `gs` plus
      its h score when that is below its f score, and takes both scores. */
  method AStarBranch(g0: Grid, g: Grid, g4: Grid, rows: int, cols: int, heap: Heap, c: Pos, e: Pos, gs: Score,
                     ghost tc: map<Pos, nat>, ghost nc: nat, ghost ex: seq<Pos>)
    returns (found: bool, g2: Grid)
    modifies heap
    requires AStarFrame(g0, g4, rows, cols, heap.contents, tc, nc) && InBounds(rows, cols, e)
    requires WellFormed(g, rows, cols) && Marked(g, g4, rows, cols) && At(g4, e).parent.Some?
    requires e == Goal(rows, cols) ==> Start != Goal(rows, cols)
    requires GridCleared(g0) ==> ExpandInv(g4, rows, cols, heap.contents, tc, c, ex + [e]) && gs.Fin?
    ensures AStarFrame(g0, g2, rows, cols, heap.contents, tc, nc)
    ensures found <==> e == Goal(rows, cols)
    ensures GridCleared(g0) && found ==> exists k: nat :: Reaches(g2, rows, cols, Goal(rows, cols), k)
    ensures GridCleared(g0) && !found ==> ExpandInv(g2, rows, cols, heap.contents, tc, c, ex)
    ensures Rescored(g4, g2, rows, cols)
    ensures forall r | InBounds(rows, cols, r) && r != e :: At(g2, r).g == At(g4, r).g && At(g2, r).f == At(g4, r).f
    ensures found ==> heap.contents == old(heap.contents) && At(g2, e).g == gs
    ensures !found ==> PushedAt(g, g2, rows, cols, old(heap.contents), heap.contents, e, gs)
  {
    ghost var cleared := GridCleared(g0);
    if e == Goal(rows, cols) {
      g2 := SetG(g4, e, gs);
      SetScoreEffect(g4, rows, cols, e, gs, false);
      RescoredKeeps(g0, g4, g2, rows, cols, tc, nc);
      if cleared {
        ghost var n := LinksReach(g2, rows, cols, tc, nc, e);
      }
      return true, g2;
    }
    var fnew := Plus(gs, At(g4, e).h);
    if fnew.Fin? && Below(fnew.value, At(g4, e).f) {
      ghost var h := heap.contents;
      heap.Push(Entry(fnew.value, e.0, e.1));
      g2 := SetG(SetF(g4, e, fnew), e, gs);
      PushFrame(g0, g4, rows, cols, h, tc, nc, e, fnew.value, gs);
      PushedHere(g, g4, g2, rows, cols, h, e, gs);
      if cleared {
        PushKeeps(g4, g2, rows, cols, h, tc, c, e, ex, fnew.value, gs);
      }
    } else {
      g2 := g4;
      PushedNot(g, g4, rows, cols, heap.contents, e, gs);
      if cleared {
        FringeDrop(g4, rows, cols, heap.contents, tc, c, e, ex);
      }
    }
    found := false;
  }

  /** One round of a_star: the least entry is popped; a visited cell is
      skipped, any other is marked visited and each of its accessible
      neighbours, computed once, is relaxed in order until one leads to
      the goal. */
  method AStarVisit(g0: Grid, g: Grid, rows: int, cols: int, heap: Heap, ghost tm: map<Pos, nat>, ghost n: nat)
    returns (found: bool, g2: Grid, ghost tm2: map<Pos, nat>, ghost n2: nat)
    modifies heap
    requires AStarFrame(g0, g, rows, cols, heap.contents, tm, n) && |heap.contents| > 0
    requires GridCleared(g0) ==> AStarInv(g, rows, cols, heap.contents, tm)
    ensures AStarFrame(g0, g2, rows, cols, heap.contents, tm2, n2)
    ensures found ==> Start != Goal(rows, cols)
    ensures GridCleared(g0) && found ==> exists k: nat :: Reaches(g2, rows, cols, Goal(rows, cols), k)
    ensures GridCleared(g0) && !found ==> AStarInv(g2, rows, cols, heap.contents, tm2)
    ensures !found ==> |tm2.Keys| > |tm.Keys| || (tm2 == tm && |heap.contents| < |old(heap.contents)|)
    ensures (At(g, Start).visited || OnlyStart(old(heap.contents))) ==> StartKept(g, g2, rows, cols)
  {
    ghost var cleared := GridCleared(g0);
    ghost var h0 := heap.contents;
    var x := heap.Pop();
    var c := (x.i, x.j);
    assert c == EntryPos(x) && x in h0;
    if At(g, c).visited {
      if cleared {
        AStarSkip(g, rows, cols, h0, tm, n, x);
      }
      SkipKeepsStart(g, rows, cols, h0, x);
      return false, g, tm, n;
    }
    var g1 := SetVisited(g, c);
    ghost var tm1 := tm[c := n];
    VisitEffect(g, g1, rows, cols, tm, tm1, n, c);
    FlagsKeepLayout(g0, g, g1, rows, cols);
    var ns := AccessibleNeighbors(g1, rows, cols, c);
    if cleared {
      AStarVisitStart(g, g1, rows, cols, h0, tm, tm1, n, x, ns);
    }
    AccessibleAreMoves(g1, rows, cols, tm1, n + 1, c, ns);
    forall q | q in ns
      ensures Move(g0, rows, cols, c, q)
    {
      assert SameFrame(At(g0, c), At(g1, c));
      MoveOfSameWalls(g1, g0, rows, cols, c, q);
    }
    found, g2, tm2, n2 := AStarExpand(g0, g1, rows, cols, heap, c, ns, tm1, n + 1);
    StampsGrow(tm1, tm2, n + 1);
    VisitKeepsStart(g, g1, g2, rows, cols, h0, x);
  }

  /** The loop of a_star over the accessible neighbours `ns` of the cell
      `c` it has just marked visited: each is relaxed in order until one
      leads to the goal. */
  method AStarExpand(g0: Grid, g1: Grid, rows: int, cols: int, heap: Heap, c: Pos, ns: seq<Pos>,
                     ghost tm1: map<Pos, nat>, ghost n1: nat)
    returns (found: bool, g2: Grid, ghost tm2: map<Pos, nat>, ghost n2: nat)
    modifies heap
    requires AStarFrame(g0, g1, rows, cols, heap.contents, tm1, n1) && InBounds(rows, cols, c) && At(g1, c).visited
    requires forall q | q in ns ::
               InBounds(rows, cols, q) && !At(g1, q).visited && q !in tm1 && Move(g0, rows, cols, c, q)
    requires GridCleared(g0) ==> ExpandInv(g1, rows, cols, heap.contents, tm1, c, ns)
    ensures AStarFrame(g0, g2, rows, cols, heap.contents, tm2, n2)
    ensures StampsExtend(tm1, tm2, n1) && n1 <= n2
    ensures found ==> Start != Goal(rows, cols)
    ensures GridCleared(g0) && found ==> exists k: nat :: Reaches(g2, rows, cols, Goal(rows, cols), k)
    ensures GridCleared(g0) && !found ==> ExpandInv(g2, rows, cols, heap.contents, tm2, c, [])
    ensures At(g1, Start).visited ==> StartKept(g1, g2, rows, cols)
  {
    ghost var cleared := GridCleared(g0);
    g2, tm2, n2 := g1, tm1, n1;
    ghost var walk: seq<Pos>;
    for m := 0 to |ns|
      invariant AStarFrame(g0, g2, rows, cols, heap.contents, tm2, n2)
      invariant StampsExtend(tm1, tm2, n1) && n1 <= n2
      invariant cleared ==> ExpandInv(g2, rows, cols, heap.contents, tm2, c, ns[m..]) && LaterStamps(tm2, tm1, c)
      invariant At(g1, Start).visited ==> StartKept(g1, g2, rows, cols)
    {
      SuffixSplit(ns, m);
      assert ns[m] in ns;
      found, g2, tm2, n2, walk := AStarNeighbor(g0, g2, rows, cols, heap, c, ns[m], tm1, n1, tm2, n2, ns[m + 1..]);
      if found {
        return;
      }
    }
    found := false;
  }

  /** AStarRelax inside the loop over the neighbours of `c`: the cells
      stamped since `c` was expanded were stamped after it. */
  method AStarNeighbor(g0: Grid, g: Grid, rows: int, cols: int, heap: Heap, c: Pos, q: Pos,
                       ghost tm1: map<Pos, nat>, ghost n1: nat, ghost tc: map<Pos, nat>, ghost nc: nat,
                       ghost ex: seq<Pos>)
    returns (found: bool, g2: Grid, ghost tc2: map<Pos, nat>, ghost nc2: nat, ghost walk: seq<Pos>)
    modifies heap
    requires AStarFrame(g0, g, rows, cols, heap.contents, tc, nc)
    requires InBounds(rows, cols, c) && InBounds(rows, cols, q) && q != c && Move(g0, rows, cols, c, q)
    requires StampsExtend(tm1, tc, n1) && n1 <= nc && q !in tm1
    requires GridCleared(g0) ==> ExpandInv(g, rows, cols, heap.contents, tc, c, [q] + ex) && LaterStamps(tc, tm1, c)
    ensures AStarFrame(g0, g2, rows, cols, heap.contents, tc2, nc2)
    ensures StampsExtend(tm1, tc2, n1) && n1 <= nc2
    ensures found ==> Start != Goal(rows, cols)
    ensures GridCleared(g0) && found ==> exists k: nat :: Reaches(g2, rows, cols, Goal(rows, cols), k)
    ensures GridCleared(g0) && !found ==> ExpandInv(g2, rows, cols, heap.contents, tc2, c, ex) && LaterStamps(tc2, tm1, c)
    ensures Relaxed(g, g2, rows, cols, old(heap.contents), heap.contents, c, q, walk, found)
    ensures At(g, Start).visited && q != Start ==> StartKept(g, g2, rows, cols)
  {
    assert SameFrame(At(g0, c), At(g, c));
    MoveOfSameWalls(g0, g, rows, cols, c, q);
    found, g2, tc2, nc2, walk := AStarRelax(g0, g, rows, cols, heap, c, q, tc, nc, ex);
    StampsChain(tm1, tc, tc2, n1, nc);
    if GridCleared(g0) && !found {
      LaterStampsKept(tm1, tc, tc2, nc, c);
    }
  }
}
