/** The maze as a graph: open moves, paths from the start, parent chains,
    and the spanning-tree shape that generation leaves behind. These are
    the reference definitions the generator and the solvers are proved against. */
module MazeGraph {
  import opened Cell
  import opened MazeGrid

  /** `p` to `q` is one open move: `q` is the neighbour of `p` in some
      direction whose wall on `p`'s side is down. */
  predicate Move(g: Grid, rows: int, cols: int, p: Pos, q: Pos)
    requires WellFormed(g, rows, cols)
  {
    || (OpenMove(g, rows, cols, p, Up) && q == Step(p, Up))
    || (OpenMove(g, rows, cols, p, Down) && q == Step(p, Down))
    || (OpenMove(g, rows, cols, p, Left) && q == Step(p, Left))
    || (OpenMove(g, rows, cols, p, Right) && q == Step(p, Right))
  }

  /** A walk from the start along open moves. */
  predicate IsPath(g: Grid, rows: int, cols: int, path: seq<Pos>)
    requires WellFormed(g, rows, cols)
  {
    && |path| > 0
    && path[0] == Start
    && InBounds(rows, cols, Start)
    && forall k | 0 <= k < |path| - 1 :: Move(g, rows, cols, path[k], path[k + 1])
  }

  /** Every open move out of a visited cell leads to a visited cell: the
      visited cells are closed under moves. */
  ghost predicate VisitedClosed(g: Grid, rows: int, cols: int)
    requires WellFormed(g, rows, cols)
  {
    forall p, d | OpenMove(g, rows, cols, p, d) && At(g, p).visited :: At(g, Step(p, d)).visited
  }

  /** A set of visited cells closed under moves and holding the start holds
      the end of every path: no path leaves it. */
  lemma {:induction false} ClosedHoldsPathEnds(g: Grid, rows: int, cols: int, path: seq<Pos>)
    requires WellFormed(g, rows, cols) && IsPath(g, rows, cols, path)
    requires VisitedClosed(g, rows, cols) && At(g, Start).visited
    ensures InBounds(rows, cols, path[|path| - 1]) && At(g, path[|path| - 1]).visited
    decreases |path|
  {
    if |path| > 1 {
      var pre := path[..|path| - 1];
      assert IsPath(g, rows, cols, pre) by {
        forall k | 0 <= k < |pre| - 1
          ensures Move(g, rows, cols, pre[k], pre[k + 1])
        {
          assert pre[k] == path[k] && pre[k + 1] == path[k + 1];
        }
      }
      ClosedHoldsPathEnds(g, rows, cols, pre);
      assert Move(g, rows, cols, path[|path| - 2], path[|path| - 1]);
    }
  }

  /** Following `k` parent links from `p`, each the reverse of an open
      move, ends at the start. */
  predicate Reaches(g: Grid, rows: int, cols: int, p: Pos, k: nat)
    requires WellFormed(g, rows, cols)
    decreases k
  {
    && InBounds(rows, cols, p)
    && if k == 0 then p == Start
       else
         && At(g, p).parent.Some?
         && Move(g, rows, cols, At(g, p).parent.value, p)
         && Reaches(g, rows, cols, At(g, p).parent.value, k - 1)
  }

  /** The path that a parent chain of length `k` spells out, start first:
      each cell's parent is the cell before it. */
  function ParentPath(g: Grid, rows: int, cols: int, p: Pos, k: nat): (path: seq<Pos>)
    requires WellFormed(g, rows, cols) && Reaches(g, rows, cols, p, k)
    ensures |path| == k + 1 && path[k] == p && IsPath(g, rows, cols, path)
    ensures forall m | 0 < m <= k :: InBounds(rows, cols, path[m]) && At(g, path[m]).parent == Some(path[m - 1])
    decreases k
  {
    if k == 0 then [p]
    else
      var q := At(g, p).parent.value;
      var pre := ParentPath(g, rows, cols, q, k - 1);
      var path := pre + [p];
      assert forall m | 0 <= m < k :: path[m] == pre[m];
      path
  }

  /** Every cell of a `rows` by `cols` grid. */
  function AllCells(rows: int, cols: int): set<Pos> {
    set i, j | 0 <= i < rows && 0 <= j < cols :: (i, j)
  }

  lemma AllCellsMembership(rows: int, cols: int, p: Pos)
    ensures p in AllCells(rows, cols) <==> InBounds(rows, cols, p)
  {
    if InBounds(rows, cols, p) {
      assert p == (p.0, p.1);
    }
  }

  function RowCells(i: int, cols: int): set<Pos> {
    set j | 0 <= j < cols :: (i, j)
  }

  lemma RowCellsMembership(i: int, cols: int, p: Pos)
    ensures p in RowCells(i, cols) <==> p.0 == i && 0 <= p.1 < cols
  {
    if p.0 == i && 0 <= p.1 < cols {
      assert p == (i, p.1);
    }
  }

  lemma {:induction false} RowCellsCard(i: int, cols: nat)
    ensures |RowCells(i, cols)| == cols
  {
    if cols == 0 {
      assert RowCells(i, cols) == {};
    } else {
      var a, b := RowCells(i, cols), RowCells(i, cols - 1);
      forall p
        ensures p in a <==> p in b || p == (i, cols - 1)
      {
        RowCellsMembership(i, cols, p);
        RowCellsMembership(i, cols - 1, p);
      }
      assert a == b + {(i, cols - 1)};
      RowCellsMembership(i, cols - 1, (i, cols - 1));
      RowCellsCard(i, cols - 1);
    }
  }

  lemma {:induction false} AllCellsCard(rows: nat, cols: nat)
    ensures |AllCells(rows, cols)| == rows * cols
  {
    if rows == 0 {
      forall p
        ensures p !in AllCells(rows, cols)
      {
        AllCellsMembership(rows, cols, p);
      }
      assert AllCells(rows, cols) == {};
    } else {
      var a, b, r := AllCells(rows, cols), AllCells(rows - 1, cols), RowCells(rows - 1, cols);
      forall p
        ensures (p in a <==> p in b || p in r) && !(p in b && p in r)
      {
        AllCellsMembership(rows, cols, p);
        AllCellsMembership(rows - 1, cols, p);
        RowCellsMembership(rows - 1, cols, p);
      }
      assert a == b + r;
      assert b !! r;
      DisjointUnionCard(b, r);
      AllCellsCard(rows - 1, cols);
      RowCellsCard(rows - 1, cols);
      MulStep(rows, cols);
    }
  }

  lemma DisjointUnionCard<T>(a: set<T>, b: set<T>)
    requires a !! b
    ensures |a + b| == |a| + |b|
  {
  }

  lemma MulStep(rows: int, cols: int)
    ensures (rows - 1) * cols + cols == rows * cols
  {
  }

  /** The generator's record of one carve: `tree[p] == (q, d)` says `p` was
      opened from `q`, its neighbour in direction `d` from `q`, with the
      walls on both sides of the shared edge down; `q` came first. */
  type Tree = map<Pos, (Pos, Direction)>

  predicate Carved(g: Grid, rows: int, cols: int, tree: Tree, rank: map<Pos, nat>, p: Pos)
    requires WellFormed(g, rows, cols) && p in tree
  {
    var (q, d) := tree[p];
    && InBounds(rows, cols, p) && InBounds(rows, cols, q) && Step(q, d) == p
    && p in rank && q in rank && rank[q] < rank[p]
    && !At(g, q).walls[d] && !At(g, p).walls[Opposite(d)]
  }

  /** The edge of `p` in direction `d` is one the tree carved. */
  predicate Passage(tree: Tree, p: Pos, d: Direction) {
    || (p in tree && tree[p] == (Step(p, d), Opposite(d)))
    || (Step(p, d) in tree && tree[Step(p, d)] == (p, d))
  }

  /** Between two cells of the grid a wall is down exactly where the tree
      carved a passage. */
  ghost predicate WallsMatchTree(g: Grid, rows: int, cols: int, tree: Tree)
    requires WellFormed(g, rows, cols)
  {
    forall p, d | InBounds(rows, cols, p) && InBounds(rows, cols, Step(p, d)) ::
      !At(g, p).walls[d] <==> Passage(tree, p, d)
  }

  /** Every cell but the start was carved from an earlier ranked neighbour. */
  ghost predicate Rooted(g: Grid, rows: int, cols: int, tree: Tree, rank: map<Pos, nat>)
    requires WellFormed(g, rows, cols)
  {
    && Start in rank
    && (forall p | InBounds(rows, cols, p) && p != Start :: p in tree)
    && (forall p | p in tree :: Carved(g, rows, cols, tree, rank, p))
  }

  /** A perfect maze: rooted at the start, the carves are all the grid's
      cells but the start, and no inner wall is down except by a carve. */
  ghost predicate SpanningTree(g: Grid, rows: int, cols: int, tree: Tree, rank: map<Pos, nat>)
    requires WellFormed(g, rows, cols)
  {
    && Rooted(g, rows, cols, tree, rank)
    && tree.Keys == AllCells(rows, cols) - {Start}
    && WallsMatchTree(g, rows, cols, tree)
  }

  /** Being a perfect maze depends on the walls alone. */
  lemma SpanningTreeOfSameLayout(g: Grid, g2: Grid, rows: int, cols: int, tree: Tree, rank: map<Pos, nat>)
    requires WellFormed(g, rows, cols) && WellFormed(g2, rows, cols) && SameLayout(g, g2)
    requires SpanningTree(g, rows, cols, tree, rank)
    ensures SpanningTree(g2, rows, cols, tree, rank)
  {
    forall p | p in tree
      ensures Carved(g2, rows, cols, tree, rank, p)
    {
      assert Carved(g, rows, cols, tree, rank, p);
      var (q, d) := tree[p];
      assert At(g2, q).walls == At(g, q).walls;
      assert At(g2, p).walls == At(g, p).walls;
    }
    forall p, d | InBounds(rows, cols, p) && InBounds(rows, cols, Step(p, d))
      ensures !At(g2, p).walls[d] <==> Passage(tree, p, d)
    {
      assert At(g2, p).walls == At(g, p).walls;
    }
  }

  /** A spanning tree has one carve, so one passage, per cell but one. */
  lemma SpanningTreeSize(g: Grid, rows: int, cols: int, tree: Tree, rank: map<Pos, nat>)
    requires WellFormed(g, rows, cols) && rows > 0 && cols > 0
    requires SpanningTree(g, rows, cols, tree, rank)
    ensures |tree| == rows * cols - 1
  {
    AllCellsCard(rows, cols);
    assert Start in AllCells(rows, cols);
    assert tree.Keys == AllCells(rows, cols) - {Start};
  }

  /** No two carves describe the same passage: parent and child never swap. */
  lemma CarvesAreDistinctEdges(g: Grid, rows: int, cols: int, tree: Tree, rank: map<Pos, nat>, p: Pos, q: Pos)
    requires WellFormed(g, rows, cols) && SpanningTree(g, rows, cols, tree, rank)
    requires p in tree && q in tree && tree[p].0 == q
    ensures tree[q].0 != p
  {
    assert Carved(g, rows, cols, tree, rank, p);
    assert Carved(g, rows, cols, tree, rank, q);
  }

  /** In a spanning tree every cell is reached from the start by the path
      down the tree. */
  ghost function TreePath(g: Grid, rows: int, cols: int, tree: Tree, rank: map<Pos, nat>, p: Pos): (path: seq<Pos>)
    requires WellFormed(g, rows, cols) && rows > 0 && cols > 0
    requires Rooted(g, rows, cols, tree, rank) && InBounds(rows, cols, p)
    ensures IsPath(g, rows, cols, path) && path[|path| - 1] == p
    decreases if p in rank then rank[p] else 0
  {
    if p == Start then [Start]
    else
      assert Carved(g, rows, cols, tree, rank, p);
      var (q, d) := tree[p];
      var pre := TreePath(g, rows, cols, tree, rank, q);
      var path := pre + [p];
      assert OpenMove(g, rows, cols, q, d);
      assert Move(g, rows, cols, q, p);
      assert forall m | 0 <= m < |pre| :: path[m] == pre[m];
      path
  }

  /** Every grid neighbour of a visited cell is visited. */
  ghost predicate NeighborsClosed(g: Grid, rows: int, cols: int)
    requires WellFormed(g, rows, cols)
  {
    forall p, d | InBounds(rows, cols, p) && InBounds(rows, cols, Step(p, d)) && At(g, p).visited ::
      At(g, Step(p, d)).visited
  }

  /** If the start is visited and the visited cells are closed under grid
      adjacency, every cell is visited. */
  lemma AllVisited(g: Grid, rows: int, cols: int)
    requires WellFormed(g, rows, cols) && rows > 0 && cols > 0
    requires At(g, Start).visited && NeighborsClosed(g, rows, cols)
    ensures forall p | InBounds(rows, cols, p) :: At(g, p).visited
  {
    forall p | InBounds(rows, cols, p)
      ensures At(g, p).visited
    {
      VisitedAlongDiagonals(g, rows, cols, p);
    }
  }

  lemma {:induction false} VisitedAlongDiagonals(g: Grid, rows: int, cols: int, p: Pos)
    requires WellFormed(g, rows, cols) && rows > 0 && cols > 0
    requires At(g, Start).visited && NeighborsClosed(g, rows, cols)
    requires InBounds(rows, cols, p)
    ensures At(g, p).visited
    decreases p.0 + p.1
  {
    if p == Start {
    } else if p.0 > 0 {
      var q := (p.0 - 1, p.1);
      VisitedAlongDiagonals(g, rows, cols, q);
      assert Step(q, Down) == p;
    } else {
      var q := (p.0, p.1 - 1);
      VisitedAlongDiagonals(g, rows, cols, q);
      assert Step(q, Right) == p;
    }
  }

  /** The walls of `g2` are those of `g` with the wall of `q` in direction
      `d` and the matching wall of its neighbour opened. */
  ghost predicate OpenedPair(g: Grid, g2: Grid, rows: int, cols: int, q: Pos, d: Direction)
    requires WellFormed(g, rows, cols) && WellFormed(g2, rows, cols)
  {
    forall p, e | InBounds(rows, cols, p) ::
      At(g2, p).walls[e] == if (p, e) == (q, d) || (p, e) == (Step(q, d), Opposite(d)) then false else At(g, p).walls[e]
  }

  /** One carve of the generator keeps every recorded carve valid: opening
      the wall of `q` towards unvisited `c` and the matching wall of `c`,
      and recording `c` as carved from `q` with a rank above all others. */
  lemma CarveKeepsCarved(g: Grid, g2: Grid, rows: int, cols: int, tree: Tree, rank: map<Pos, nat>,
                         q: Pos, d: Direction, c: Pos, n: nat, tree2: Tree, rank2: map<Pos, nat>)
    requires WellFormed(g, rows, cols) && WellFormed(g2, rows, cols)
    requires InBounds(rows, cols, q) && c == Step(q, d) && InBounds(rows, cols, c)
    requires c !in tree && c !in rank && q in rank
    requires forall p | p in rank :: rank[p] < n
    requires forall p | p in tree :: Carved(g, rows, cols, tree, rank, p)
    requires OpenedPair(g, g2, rows, cols, q, d)
    requires tree2 == tree[c := (q, d)] && rank2 == rank[c := n]
    ensures forall p | p in tree2 :: Carved(g2, rows, cols, tree2, rank2, p)
  {
    forall p | p in tree2
      ensures Carved(g2, rows, cols, tree2, rank2, p)
    {
      if p != c {
        assert Carved(g, rows, cols, tree, rank, p);
        var (q', d') := tree[p];
        assert q' != c;
      }
    }
  }

  /** ... and keeps the inner walls that are down exactly the carved ones. */
  lemma CarveKeepsWallsMatch(g: Grid, g2: Grid, rows: int, cols: int, tree: Tree,
                             q: Pos, d: Direction, c: Pos, tree2: Tree)
    requires WellFormed(g, rows, cols) && WellFormed(g2, rows, cols)
    requires InBounds(rows, cols, q) && c == Step(q, d) && InBounds(rows, cols, c)
    requires c !in tree && forall p | p in tree :: tree[p].0 != c
    requires WallsMatchTree(g, rows, cols, tree)
    requires OpenedPair(g, g2, rows, cols, q, d)
    requires tree2 == tree[c := (q, d)]
    ensures WallsMatchTree(g2, rows, cols, tree2)
  {
    forall p, e | InBounds(rows, cols, p) && InBounds(rows, cols, Step(p, e))
      ensures !At(g2, p).walls[e] <==> Passage(tree2, p, e)
    {
      CarveKeepsWallAt(tree, q, d, c, tree2, p, e, At(g, p).walls[e], At(g2, p).walls[e]);
    }
  }

  lemma CarveKeepsWallAt(tree: Tree, q: Pos, d: Direction, c: Pos, tree2: Tree,
                         p: Pos, e: Direction, before: bool, after: bool)
    requires c == Step(q, d) && c !in tree && forall p | p in tree :: tree[p].0 != c
    requires !before <==> Passage(tree, p, e)
    requires after == if (p, e) == (q, d) || (p, e) == (c, Opposite(d)) then false else before
    requires tree2 == tree[c := (q, d)]
    ensures !after <==> Passage(tree2, p, e)
  {
    StepInverse(q, d);
    StepInverse(p, e);
    if (p, e) == (q, d) {
      assert Passage(tree2, p, e);
    } else if (p, e) == (c, Opposite(d)) {
      assert tree2[p] == (Step(p, e), Opposite(e));
    } else {
      if p == c {
        if Step(p, e) == q {
          StepInjective(p, e, Opposite(d));
        }
      } else if Step(p, e) == c {
        if p == q {
          StepInjective(q, d, e);
        }
      }
      assert Passage(tree2, p, e) <==> Passage(tree, p, e);
    }
  }

  /** The number of entries of `s` whose cells are visited. */
  function VisitedEntries(g: Grid, rows: int, cols: int, s: seq<Pos>): (n: nat)
    requires WellFormed(g, rows, cols) && forall q | q in s :: InBounds(rows, cols, q)
    ensures n <= |s|
  {
    if s == [] then 0
    else
      var q := s[|s| - 1];
      assert q in s;
      assert InBounds(rows, cols, q);
      assert 0 <= q.0 < |g|;
      assert |g[q.0]| == cols;
      VisitedEntries(g, rows, cols, s[..|s| - 1]) + (if At(g, s[|s| - 1]).visited then 1 else 0)
  }

  lemma VisitedEntriesAppend(g: Grid, rows: int, cols: int, s: seq<Pos>, x: Pos)
    requires WellFormed(g, rows, cols) && InBounds(rows, cols, x)
    requires forall q | q in s :: InBounds(rows, cols, q)
    ensures VisitedEntries(g, rows, cols, s + [x])
         == VisitedEntries(g, rows, cols, s) + (if At(g, x).visited then 1 else 0)
  {
    assert (s + [x])[..|s|] == s;
  }

  lemma SplitLast<T>(s: seq<T>)
    requires |s| > 0
    ensures s == s[..|s| - 1] + [s[|s| - 1]]
  {
  }

  lemma AppendTake<T>(a: seq<T>, s: seq<T>, m: nat)
    requires m < |s|
    ensures (a + s[..m]) + [s[m]] == a + s[..m + 1]
  {
    assert s[..m + 1] == s[..m] + [s[m]];
  }

  lemma SubsetCard<T>(a: set<T>, b: set<T>)
    requires a <= b
    ensures |a| <= |b|
  {
    assert b == a + (b - a);
  }
}
