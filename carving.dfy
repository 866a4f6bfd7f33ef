/** The loop invariant of __break_walls (src/maze.py), split into the
    parts each step of the loop has to re-establish, with one lemma per
    step. */
module MazeCarving {
  import opened Cell
  import opened MazeGrid
  import opened MazeGraph

  /** `g` differs from `g0` only in walls between cells and in visited flags. */
  ghost predicate KeepsLayout(g0: Grid, g: Grid, rows: int, cols: int) {
    && WellFormed(g0, rows, cols) && WellFormed(g, rows, cols)
    && SameOtherFields(g0, g, rows, cols)
    && (forall p, d | InBounds(rows, cols, p) && !InBounds(rows, cols, Step(p, d)) ::
          At(g, p).walls[d] == At(g0, p).walls[d])
  }

  /** The carves so far: the start and the carved cells are exactly the
      visited ones, each carved from an earlier ranked neighbour, and the
      inner walls that are down are exactly the carved passages. */
  ghost predicate CarvedSoFar(g: Grid, rows: int, cols: int, t: Tree, rk: map<Pos, nat>, n: nat)
    requires WellFormed(g, rows, cols)
  {
    && InBounds(rows, cols, Start) && At(g, Start).visited
    && (forall p | p in t :: InBounds(rows, cols, p) && p != Start && At(g, p).visited)
    && (forall p | InBounds(rows, cols, p) && p != Start && At(g, p).visited :: p in t)
    && Start in rk
    && (forall p | p in rk :: rk[p] < n && InBounds(rows, cols, p) && At(g, p).visited)
    && (forall p | p in t :: Carved(g, rows, cols, t, rk, p))
    && WallsMatchTree(g, rows, cols, t)
  }

  /** Every stacked position is a cell, and the start or a cell with a
      recorded pusher; each recorded pusher is a visited neighbour. */
  ghost predicate StackLinks(g: Grid, rows: int, cols: int, stack: seq<Pos>, cameFrom: map<Pos, (Pos, Direction)>)
    requires WellFormed(g, rows, cols)
  {
    && (forall q | q in stack :: InBounds(rows, cols, q) && (q == Start || q in cameFrom))
    && (forall m | m in cameFrom ::
          InBounds(rows, cols, m) && InBounds(rows, cols, cameFrom[m].0)
          && Step(cameFrom[m].0, cameFrom[m].1) == m && At(g, cameFrom[m].0).visited)
  }

  /** Every unvisited neighbour of a visited cell that is neither on the
      stack nor in `skip` is on the stack. */
  ghost predicate FrontierStacked(g: Grid, rows: int, cols: int, stack: seq<Pos>, skip: set<Pos>)
    requires WellFormed(g, rows, cols)
  {
    forall v, d | InBounds(rows, cols, v) && InBounds(rows, cols, Step(v, d))
      && At(g, v).visited && v !in stack && v !in skip && !At(g, Step(v, d)).visited ::
      Step(v, d) in stack
  }

  /** The grid after carving from `q` into its neighbour `c` in direction `d`. */
  function CarveInto(g: Grid, q: Pos, d: Direction, c: Pos): Grid
    requires 0 <= q.0 < |g| && 0 <= q.1 < |g[q.0]| && 0 <= c.0 < |g| && 0 <= c.1 < |g[c.0]|
  {
    SetVisited(SetWall(SetWall(g, q, d, false), c, Opposite(d), false), c)
  }

  /** Apart from walls and visited flags, `g2` agrees with `g`. */
  ghost predicate SameOtherFields(g: Grid, g2: Grid, rows: int, cols: int)
    requires WellFormed(g, rows, cols) && WellFormed(g2, rows, cols)
  {
    forall p | InBounds(rows, cols, p) ::
      At(g2, p).(walls := At(g, p).walls, visited := At(g, p).visited) == At(g, p)
  }

  /** What one carve changes: the two walls of the shared edge and the
      visited flag of `c`. */
  lemma CarveEffect(g: Grid, rows: int, cols: int, q: Pos, d: Direction, c: Pos)
    requires WellFormed(g, rows, cols)
    requires InBounds(rows, cols, q) && InBounds(rows, cols, c) && Step(q, d) == c
    ensures var g2 := CarveInto(g, q, d, c);
      && WellFormed(g2, rows, cols)
      && OpenedPair(g, g2, rows, cols, q, d)
      && VisitsOnly(g, g2, rows, cols, c)
      && SameOtherFields(g, g2, rows, cols)
  {
    var g1 := SetWall(g, q, d, false);
    SetWallEffect(g, rows, cols, q, d, false);
    var g2 := SetWall(g1, c, Opposite(d), false);
    SetWallEffect(g1, rows, cols, c, Opposite(d), false);
    SetVisitedEffect(g2, rows, cols, c);
  }

  /** One carve keeps the layout and extends the record by `c`. */
  lemma CarveStep(g0: Grid, g: Grid, rows: int, cols: int, t: Tree, rk: map<Pos, nat>, n: nat,
                  q: Pos, d: Direction, c: Pos)
    requires KeepsLayout(g0, g, rows, cols) && CarvedSoFar(g, rows, cols, t, rk, n)
    requires InBounds(rows, cols, q) && InBounds(rows, cols, c) && Step(q, d) == c
    requires At(g, q).visited && !At(g, c).visited
    ensures WellFormed(CarveInto(g, q, d, c), rows, cols)
    ensures KeepsLayout(g0, CarveInto(g, q, d, c), rows, cols)
    ensures CarvedSoFar(CarveInto(g, q, d, c), rows, cols, t[c := (q, d)], rk[c := n], n + 1)
    ensures VisitsOnly(g, CarveInto(g, q, d, c), rows, cols, c)
    ensures c !in t && |t[c := (q, d)].Keys| == |t.Keys| + 1
  {
    var g2 := CarveInto(g, q, d, c);
    CarveEffect(g, rows, cols, q, d, c);
    StepInverse(q, d);
    LayoutAfterCarve(g0, g, g2, rows, cols, q, d);
    CarveRecord(g, g2, rows, cols, t, rk, n, q, d, c);
  }

  /** One carve extends the record by `c`. */
  lemma CarveRecord(g: Grid, g2: Grid, rows: int, cols: int, t: Tree, rk: map<Pos, nat>, n: nat,
                    q: Pos, d: Direction, c: Pos)
    requires WellFormed(g, rows, cols) && WellFormed(g2, rows, cols)
    requires CarvedSoFar(g, rows, cols, t, rk, n)
    requires InBounds(rows, cols, q) && InBounds(rows, cols, c) && Step(q, d) == c
    requires At(g, q).visited && !At(g, c).visited
    requires OpenedPair(g, g2, rows, cols, q, d) && VisitsOnly(g, g2, rows, cols, c)
    ensures CarvedSoFar(g2, rows, cols, t[c := (q, d)], rk[c := n], n + 1)
    ensures c !in t && |t[c := (q, d)].Keys| == |t.Keys| + 1
  {
    var t2, rk2 := t[c := (q, d)], rk[c := n];
    assert c !in t;
    CarveRecordCarved(g, g2, rows, cols, t, rk, n, q, d, c, t2, rk2);
    CarveRecordWalls(g, g2, rows, cols, t, rk, n, q, d, c, t2);
    RecordAfterCarve(g, g2, rows, cols, t, rk, n, q, d, c, t2, rk2);
  }

  lemma CarveRecordCarved(g: Grid, g2: Grid, rows: int, cols: int, t: Tree, rk: map<Pos, nat>, n: nat,
                          q: Pos, d: Direction, c: Pos, t2: Tree, rk2: map<Pos, nat>)
    requires WellFormed(g, rows, cols) && WellFormed(g2, rows, cols)
    requires CarvedSoFar(g, rows, cols, t, rk, n)
    requires InBounds(rows, cols, q) && InBounds(rows, cols, c) && Step(q, d) == c
    requires At(g, q).visited && !At(g, c).visited
    requires OpenedPair(g, g2, rows, cols, q, d)
    requires t2 == t[c := (q, d)] && rk2 == rk[c := n]
    ensures forall p | p in t2 :: Carved(g2, rows, cols, t2, rk2, p)
  {
    assert c !in t;
    assert c !in rk;
    CarveKeepsCarved(g, g2, rows, cols, t, rk, q, d, c, n, t2, rk2);
  }

  lemma CarveRecordWalls(g: Grid, g2: Grid, rows: int, cols: int, t: Tree, rk: map<Pos, nat>, n: nat,
                         q: Pos, d: Direction, c: Pos, t2: Tree)
    requires WellFormed(g, rows, cols) && WellFormed(g2, rows, cols)
    requires CarvedSoFar(g, rows, cols, t, rk, n)
    requires InBounds(rows, cols, q) && InBounds(rows, cols, c) && Step(q, d) == c
    requires !At(g, c).visited
    requires OpenedPair(g, g2, rows, cols, q, d)
    requires t2 == t[c := (q, d)]
    ensures WallsMatchTree(g2, rows, cols, t2)
  {
    assert c !in t;
    forall p | p in t
      ensures t[p].0 != c
    {
      assert Carved(g, rows, cols, t, rk, p);
    }
    CarveKeepsWallsMatch(g, g2, rows, cols, t, q, d, c, t2);
  }

  lemma LayoutAfterCarve(g0: Grid, g: Grid, g2: Grid, rows: int, cols: int, q: Pos, d: Direction)
    requires KeepsLayout(g0, g, rows, cols) && WellFormed(g2, rows, cols)
    requires InBounds(rows, cols, q) && InBounds(rows, cols, Step(q, d))
    requires Step(Step(q, d), Opposite(d)) == q
    requires OpenedPair(g, g2, rows, cols, q, d) && SameOtherFields(g, g2, rows, cols)
    ensures KeepsLayout(g0, g2, rows, cols)
  {
  }

  lemma RecordAfterCarve(g: Grid, g2: Grid, rows: int, cols: int, t: Tree, rk: map<Pos, nat>, n: nat,
                         q: Pos, d: Direction, c: Pos, t2: Tree, rk2: map<Pos, nat>)
    requires WellFormed(g, rows, cols) && WellFormed(g2, rows, cols)
    requires CarvedSoFar(g, rows, cols, t, rk, n)
    requires InBounds(rows, cols, c) && c != Start && VisitsOnly(g, g2, rows, cols, c)
    requires t2 == t[c := (q, d)] && rk2 == rk[c := n]
    requires forall p | p in t2 :: Carved(g2, rows, cols, t2, rk2, p)
    requires WallsMatchTree(g2, rows, cols, t2)
    ensures CarvedSoFar(g2, rows, cols, t2, rk2, n + 1)
  {
    forall p | p in t2
      ensures InBounds(rows, cols, p) && p != Start && At(g2, p).visited
    {
      if p != c { assert p in t; }
    }
    forall p | InBounds(rows, cols, p) && p != Start && At(g2, p).visited
      ensures p in t2
    {
      if p != c { assert At(g, p).visited; }
    }
    forall p | p in rk2
      ensures rk2[p] < n + 1 && InBounds(rows, cols, p) && At(g2, p).visited
    {
      if p != c { assert p in rk; }
    }
  }

  /** Cells that agree on everything but walls and visited flags have the
      same boxes. */
  lemma OtherFieldsGiveBoxes(g: Grid, g2: Grid, rows: int, cols: int)
    requires WellFormed(g, rows, cols) && WellFormed(g2, rows, cols)
    requires SameOtherFields(g, g2, rows, cols)
    ensures SameBoxes(g, g2)
  {
    forall i, j | 0 <= i < rows && 0 <= j < cols
      ensures g[i][j].h == g2[i][j].h && g[i][j].x1 == g2[i][j].x1 && g[i][j].y1 == g2[i][j].y1
        && g[i][j].x2 == g2[i][j].x2 && g[i][j].y2 == g2[i][j].y2
    {
      assert InBounds(rows, cols, (i, j));
    }
  }

  /** The carved cells are cells of the grid, so there are at most
      `rows * cols` of them. */
  lemma CarvedBound(g: Grid, rows: nat, cols: nat, t: Tree, rk: map<Pos, nat>, n: nat)
    requires WellFormed(g, rows, cols) && CarvedSoFar(g, rows, cols, t, rk, n)
    ensures |t.Keys| <= rows * cols
  {
    forall p | p in t.Keys
      ensures p in AllCells(rows, cols)
    {
      AllCellsMembership(rows, cols, p);
    }
    SubsetCard(t.Keys, AllCells(rows, cols));
    AllCellsCard(rows, cols);
  }

  /** The position on top of a well-linked stack is inside the grid. */
  lemma PoppedInBounds(g: Grid, rows: int, cols: int, stack: seq<Pos>, cameFrom: map<Pos, (Pos, Direction)>)
    requires WellFormed(g, rows, cols) && StackLinks(g, rows, cols, stack, cameFrom) && |stack| > 0
    ensures InBounds(rows, cols, stack[|stack| - 1])
    ensures 0 <= stack[|stack| - 1].0 < |g| && |g[stack[|stack| - 1].0]| == cols
  {
    assert stack[|stack| - 1] in stack;
  }

  /** Popping `c` and then marking it visited: every cell but `c` that has
      left the stack still has its unvisited neighbours stacked. */
  lemma PopKeepsFrontier(g: Grid, g2: Grid, rows: int, cols: int, stack: seq<Pos>, c: Pos)
    requires WellFormed(g, rows, cols) && WellFormed(g2, rows, cols)
    requires FrontierStacked(g, rows, cols, stack + [c], {})
    requires VisitsOnly(g, g2, rows, cols, c) && InBounds(rows, cols, c) && At(g2, c).visited
    ensures FrontierStacked(g2, rows, cols, stack, {c})
  {
    forall v, d | InBounds(rows, cols, v) && InBounds(rows, cols, Step(v, d))
      && At(g2, v).visited && v !in stack && v !in {c} && !At(g2, Step(v, d)).visited
      ensures Step(v, d) in stack
    {
      assert v !in stack + [c];
      assert Step(v, d) in stack + [c];
    }
  }

  /** Marking cells visited keeps the recorded pushers visited. */
  lemma VisitKeepsLinks(g: Grid, g2: Grid, rows: int, cols: int, stack: seq<Pos>,
                        cameFrom: map<Pos, (Pos, Direction)>, c: Pos)
    requires WellFormed(g, rows, cols) && WellFormed(g2, rows, cols)
    requires StackLinks(g, rows, cols, stack + [c], cameFrom) && VisitsOnly(g, g2, rows, cols, c)
    ensures StackLinks(g2, rows, cols, stack, cameFrom)
  {
  }

  /** Pushing a neighbour of the visited cell `c`, recorded as pushed by `c`. */
  lemma PushKeepsLinks(g: Grid, rows: int, cols: int, stack: seq<Pos>,
                       cameFrom: map<Pos, (Pos, Direction)>, c: Pos, d: Direction)
    requires WellFormed(g, rows, cols) && StackLinks(g, rows, cols, stack, cameFrom)
    requires InBounds(rows, cols, c) && InBounds(rows, cols, Step(c, d)) && At(g, c).visited
    ensures StackLinks(g, rows, cols, stack + [Step(c, d)], cameFrom[Step(c, d) := (c, d)])
  {
  }

  /** Pushing keeps every stacked position stacked. */
  lemma PushKeepsFrontier(g: Grid, rows: int, cols: int, stack: seq<Pos>, extra: seq<Pos>, skip: set<Pos>)
    requires WellFormed(g, rows, cols) && FrontierStacked(g, rows, cols, stack, skip)
    ensures FrontierStacked(g, rows, cols, stack + extra, skip)
  {
    forall v, d | InBounds(rows, cols, v) && InBounds(rows, cols, Step(v, d))
      && At(g, v).visited && v !in stack + extra && v !in skip && !At(g, Step(v, d)).visited
      ensures Step(v, d) in stack + extra
    {
      assert v !in stack;
      assert Step(v, d) in stack;
    }
  }

  /** A shuffle of the unvisited neighbours holds only unvisited neighbours. */
  lemma ShuffledNeighbors(g: Grid, rows: int, cols: int, c: Pos, shuffled: seq<(int, int, Direction)>)
    requires WellFormed(g, rows, cols)
    requires multiset(shuffled) == multiset(UnvisitedNeighbors(g, rows, cols, c))
    ensures forall e | e in shuffled :: e == Neighbor(c.0, c.1, e.2) && UnvisitedAt(g, rows, cols, c, e.2)
  {
    forall e | e in shuffled
      ensures e == Neighbor(c.0, c.1, e.2) && UnvisitedAt(g, rows, cols, c, e.2)
    {
      assert e in multiset(UnvisitedNeighbors(g, rows, cols, c));
    }
  }

  /** Once the unvisited neighbours of `c`, in any order, are pushed, `c`
      needs no exception. */
  lemma PushedNeighborsCloseFrontier(g: Grid, rows: int, cols: int, stack: seq<Pos>, c: Pos,
                                     shuffled: seq<(int, int, Direction)>)
    requires WellFormed(g, rows, cols) && FrontierStacked(g, rows, cols, stack, {c})
    requires multiset(shuffled) == multiset(UnvisitedNeighbors(g, rows, cols, c))
    ensures FrontierStacked(g, rows, cols, stack + Positions(shuffled), {})
  {
    var s2 := stack + Positions(shuffled);
    PushKeepsFrontier(g, rows, cols, stack, Positions(shuffled), {c});
    forall d | InBounds(rows, cols, Step(c, d)) && !At(g, Step(c, d)).visited
      ensures Step(c, d) in s2
    {
      assert UnvisitedAt(g, rows, cols, c, d);
      assert Neighbor(c.0, c.1, d) in multiset(shuffled);
      var k :| 0 <= k < |shuffled| && shuffled[k] == Neighbor(c.0, c.1, d);
      assert s2[|stack| + k] == Positions(shuffled)[k] == Step(c, d);
    }
  }

  /** When the stack runs empty, every cell is visited and the carves form
      a spanning tree. */
  lemma CarvingFinished(g: Grid, rows: int, cols: int, t: Tree, rk: map<Pos, nat>, n: nat)
    requires WellFormed(g, rows, cols) && rows > 0 && cols > 0
    requires CarvedSoFar(g, rows, cols, t, rk, n) && FrontierStacked(g, rows, cols, [], {})
    ensures forall p | InBounds(rows, cols, p) :: At(g, p).visited
    ensures SpanningTree(g, rows, cols, t, rk)
  {
    assert NeighborsClosed(g, rows, cols);
    AllVisited(g, rows, cols);
    forall p
      ensures p in t.Keys <==> p in AllCells(rows, cols) - {Start}
    {
      AllCellsMembership(rows, cols, p);
    }
  }
}
