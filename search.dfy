/** What the three solvers of src/maze.py keep while they run on a reset
    grid: parent links that lead back to the start, visited cells closed
    under open moves but for the worklist, and stamps that order the
    visits. The solvers are proved against these predicates. */
module MazeSearch {
  import opened Cell
  import opened MazeGrid
  import opened MazeGraph

  /** Two cells with the same walls, box and h score. */
  predicate SameFrame(a: Cell, b: Cell) {
    a.walls == b.walls && a.x1 == b.x1 && a.y1 == b.y1 && a.x2 == b.x2 && a.y2 == b.y2 && a.h == b.h
  }

  /** A search changes search fields only: `g` has the shape of `g0` and
      the same walls, boxes and h scores. */
  ghost predicate Layout(g0: Grid, g: Grid, rows: int, cols: int) {
    && WellFormed(g0, rows, cols) && WellFormed(g, rows, cols)
    && forall p | InBounds(rows, cols, p) :: SameFrame(At(g0, p), At(g, p))
  }

  lemma LayoutIsSameLayout(g0: Grid, g: Grid, rows: int, cols: int)
    requires Layout(g0, g, rows, cols)
    ensures SameLayout(g0, g)
  {
    forall i, j | 0 <= i < |g0| && 0 <= j < |g0[i]| && j < |g[i]|
      ensures g0[i][j].walls == g[i][j].walls && g0[i][j].h == g[i][j].h
      ensures g0[i][j].x1 == g[i][j].x1 && g0[i][j].y1 == g[i][j].y1
      ensures g0[i][j].x2 == g[i][j].x2 && g0[i][j].y2 == g[i][j].y2
    {
      assert SameFrame(At(g0, (i, j)), At(g, (i, j)));
    }
  }

  lemma FlagsKeepLayout(g0: Grid, g: Grid, g1: Grid, rows: int, cols: int)
    requires Layout(g0, g, rows, cols) && WellFormed(g1, rows, cols) && FlagsOnly(g, g1, rows, cols)
    ensures Layout(g0, g1, rows, cols)
  {
    forall p | InBounds(rows, cols, p)
      ensures SameFrame(At(g0, p), At(g1, p))
    {
      assert SameFrame(At(g0, p), At(g, p));
      assert At(g1, p) == At(g, p).(visited := At(g1, p).visited);
    }
  }

  lemma RelinkKeepsLayout(g0: Grid, g: Grid, g2: Grid, rows: int, cols: int, c: Pos, ns: seq<Pos>)
    requires Layout(g0, g, rows, cols) && WellFormed(g2, rows, cols) && Relinked(g, g2, rows, cols, c, ns)
    ensures Layout(g0, g2, rows, cols)
  {
    forall p | InBounds(rows, cols, p)
      ensures SameFrame(At(g0, p), At(g2, p))
    {
      assert SameFrame(At(g0, p), At(g, p));
      assert At(g2, p).(g := At(g, p).g) == At(g, p).(parent := if p in ns then Some(c) else At(g, p).parent);
    }
  }

  /** Every position of `work` lies in the grid. */
  predicate InGrid(rows: int, cols: int, work: seq<Pos>) {
    forall q | q in work :: InBounds(rows, cols, q)
  }

  /** `tm` stamps exactly the visited cells, each with a number below `n`:
      the stamps say in which order the cells were visited. */
  ghost predicate Stamped(g: Grid, rows: int, cols: int, tm: map<Pos, nat>, n: nat)
    requires WellFormed(g, rows, cols)
  {
    && (forall p | p in tm :: InBounds(rows, cols, p) && At(g, p).visited && tm[p] < n)
    && (forall p | InBounds(rows, cols, p) && At(g, p).visited :: p in tm)
  }

  /** The parent link of `p` comes from a visited cell by an open move, one
      visited before `p` if `p` is visited itself. */
  ghost predicate LinkOk(g: Grid, rows: int, cols: int, tm: map<Pos, nat>, p: Pos)
    requires WellFormed(g, rows, cols) && InBounds(rows, cols, p) && At(g, p).parent.Some?
  {
    var u := At(g, p).parent.value;
    && InBounds(rows, cols, u) && u in tm && Move(g, rows, cols, u, p)
    && (p in tm ==> tm[u] < tm[p])
  }

  /** Every parent link but the start's is sound, and every visited cell
      but the start has one. The trigger keeps the solver from following
      parent chains on its own. */
  ghost predicate Linked(g: Grid, rows: int, cols: int, tm: map<Pos, nat>)
    requires WellFormed(g, rows, cols)
  {
    && (forall p {:trigger LinkOk(g, rows, cols, tm, p)} | InBounds(rows, cols, p) && p != Start && At(g, p).parent.Some? ::
          LinkOk(g, rows, cols, tm, p))
    && (forall p | p in tm && InBounds(rows, cols, p) && p != Start :: At(g, p).parent.Some?)
  }

  /** The g score of a linked cell is one more than its parent's. */
  ghost predicate ScoreOk(g: Grid, rows: int, cols: int, p: Pos)
    requires WellFormed(g, rows, cols) && InBounds(rows, cols, p) && At(g, p).parent.Some?
  {
    var u := At(g, p).parent.value;
    InBounds(rows, cols, u) && At(g, p).g == Plus(At(g, u).g, 1)
  }

  /** The start scores 0 and every other linked cell one more than its
      parent: the g score counts the parent links back to the start. */
  ghost predicate Scored(g: Grid, rows: int, cols: int)
    requires WellFormed(g, rows, cols)
  {
    && InBounds(rows, cols, Start) && At(g, Start).g == Fin(0)
    && forall p {:trigger ScoreOk(g, rows, cols, p)} | InBounds(rows, cols, p) && p != Start && At(g, p).parent.Some? ::
         ScoreOk(g, rows, cols, p)
  }

  /** Every worklist entry but the start was put there with a parent. */
  ghost predicate Pending(g: Grid, rows: int, cols: int, work: seq<Pos>)
    requires WellFormed(g, rows, cols)
  {
    forall q | q in work && InBounds(rows, cols, q) && q != Start :: At(g, q).parent.Some?
  }

  /** Every open move from a visited cell into an unvisited one ends at a
      position of the worklist. */
  ghost predicate Enclosed(g: Grid, rows: int, cols: int, work: seq<Pos>)
    requires WellFormed(g, rows, cols)
  {
    forall p, d | OpenMove(g, rows, cols, p, d) && At(g, p).visited && !At(g, Step(p, d)).visited ::
      Step(p, d) in work
  }

  /** From `g` to `g2` the parent of every cell of `ns` became `c`; no
      other field changed but g scores. */
  ghost predicate Relinked(g: Grid, g2: Grid, rows: int, cols: int, c: Pos, ns: seq<Pos>)
    requires WellFormed(g, rows, cols) && WellFormed(g2, rows, cols)
  {
    forall p | InBounds(rows, cols, p) ::
      At(g2, p).(g := At(g, p).g) == At(g, p).(parent := if p in ns then Some(c) else At(g, p).parent)
  }

  /** From `g` to `g1` nothing but visited flags changed. */
  ghost predicate FlagsOnly(g: Grid, g1: Grid, rows: int, cols: int)
    requires WellFormed(g, rows, cols) && WellFormed(g1, rows, cols)
  {
    forall p | InBounds(rows, cols, p) :: At(g1, p) == At(g, p).(visited := At(g1, p).visited)
  }

  /** A move depends on the walls of the cell it leaves only. */
  lemma MoveOfSameWalls(g: Grid, g2: Grid, rows: int, cols: int, u: Pos, p: Pos)
    requires WellFormed(g, rows, cols) && WellFormed(g2, rows, cols)
    requires InBounds(rows, cols, u) ==> At(g2, u).walls == At(g, u).walls
    ensures Move(g, rows, cols, u, p) <==> Move(g2, rows, cols, u, p)
  {
  }

  /** A path of a grid is a path of every grid with its layout. */
  lemma PathOfSameLayout(g0: Grid, g: Grid, rows: int, cols: int, path: seq<Pos>)
    requires Layout(g0, g, rows, cols) && IsPath(g0, rows, cols, path)
    ensures IsPath(g, rows, cols, path)
  {
    forall k | 0 <= k < |path| - 1
      ensures Move(g, rows, cols, path[k], path[k + 1])
    {
      assert Move(g0, rows, cols, path[k], path[k + 1]);
      if InBounds(rows, cols, path[k]) {
        assert SameFrame(At(g0, path[k]), At(g, path[k]));
      }
      MoveOfSameWalls(g0, g, rows, cols, path[k], path[k + 1]);
    }
  }

  /** No cell is stamped more than once, so there are at most rows * cols
      stamps. */
  lemma StampBound(g: Grid, rows: nat, cols: nat, tm: map<Pos, nat>, n: nat)
    requires WellFormed(g, rows, cols) && Stamped(g, rows, cols, tm, n)
    ensures |tm.Keys| <= rows * cols
  {
    forall p | p in tm.Keys
      ensures p in AllCells(rows, cols)
    {
      AllCellsMembership(rows, cols, p);
    }
    SubsetCard(tm.Keys, AllCells(rows, cols));
    AllCellsCard(rows, cols);
  }

  /** The stamps of the visited cells of a grid, all 0: the stamps a search
      starts from. */
  ghost function InitialStamps(g: Grid, rows: int, cols: int): (tm: map<Pos, nat>)
    requires WellFormed(g, rows, cols)
    ensures Stamped(g, rows, cols, tm, 1)
    ensures GridCleared(g) ==> tm == map[]
  {
    var tm := map p | p in AllCells(rows, cols) && InBounds(rows, cols, p) && At(g, p).visited :: 0;
    forall p | InBounds(rows, cols, p) && At(g, p).visited
      ensures p in tm
    {
      AllCellsMembership(rows, cols, p);
    }
    tm
  }

  /** Following the links from a stamped cell reaches the start; on scored
      links the g score is the number of links followed. */
  lemma {:induction false} StampedReaches(g: Grid, rows: int, cols: int, tm: map<Pos, nat>, n: nat, p: Pos)
    returns (k: nat)
    requires WellFormed(g, rows, cols) && InBounds(rows, cols, Start)
    requires Stamped(g, rows, cols, tm, n) && Linked(g, rows, cols, tm) && p in tm
    ensures Reaches(g, rows, cols, p, k)
    ensures Scored(g, rows, cols) ==> At(g, p).g == Fin(k)
    decreases tm[p]
  {
    if p == Start {
      k := 0;
    } else {
      assert At(g, p).parent.Some?;
      assert LinkOk(g, rows, cols, tm, p);
      var u := At(g, p).parent.value;
      var j := StampedReaches(g, rows, cols, tm, n, u);
      k := j + 1;
      ScoreStep(g, rows, cols, p, j);
    }
  }

  /** On scored links, a cell whose parent scores `j` scores `j + 1`. */
  lemma ScoreStep(g: Grid, rows: int, cols: int, p: Pos, j: nat)
    requires WellFormed(g, rows, cols) && InBounds(rows, cols, p) && p != Start && At(g, p).parent.Some?
    requires InBounds(rows, cols, At(g, p).parent.value)
    requires Scored(g, rows, cols) ==> At(g, At(g, p).parent.value).g == Fin(j)
    ensures Scored(g, rows, cols) ==> At(g, p).g == Fin(j + 1)
  {
    if Scored(g, rows, cols) {
      assert ScoreOk(g, rows, cols, p);
    }
  }

  /** The same from a cell that is the start or has a parent. */
  lemma LinksReach(g: Grid, rows: int, cols: int, tm: map<Pos, nat>, n: nat, p: Pos) returns (k: nat)
    requires WellFormed(g, rows, cols) && InBounds(rows, cols, Start) && InBounds(rows, cols, p)
    requires Stamped(g, rows, cols, tm, n) && Linked(g, rows, cols, tm)
    requires p == Start || At(g, p).parent.Some?
    ensures Reaches(g, rows, cols, p, k)
    ensures Scored(g, rows, cols) ==> At(g, p).g == Fin(k)
  {
    if p in tm {
      k := StampedReaches(g, rows, cols, tm, n, p);
    } else if p == Start {
      k := 0;
    } else {
      assert LinkOk(g, rows, cols, tm, p);
      var u := At(g, p).parent.value;
      var j := StampedReaches(g, rows, cols, tm, n, u);
      k := j + 1;
      ScoreStep(g, rows, cols, p, j);
    }
  }

  /** With the worklist empty, the visited cells are closed under moves,
      so no path from the start ends at a cell still unvisited. */
  lemma Unreachable(g0: Grid, g: Grid, rows: int, cols: int, target: Pos)
    requires Layout(g0, g, rows, cols) && Enclosed(g, rows, cols, [])
    requires InBounds(rows, cols, Start) && At(g, Start).visited
    requires InBounds(rows, cols, target) && !At(g, target).visited
    ensures forall path | IsPath(g0, rows, cols, path) :: path[|path| - 1] != target
  {
    assert VisitedClosed(g, rows, cols);
    forall path | IsPath(g0, rows, cols, path)
      ensures path[|path| - 1] != target
    {
      PathOfSameLayout(g0, g, rows, cols, path);
      ClosedHoldsPathEnds(g, rows, cols, path);
    }
  }

  /** Marking an unvisited cell visited with the next stamp changes its
      flag only and keeps the stamps exact. */
  lemma VisitEffect(g: Grid, g1: Grid, rows: int, cols: int, tm: map<Pos, nat>, tm1: map<Pos, nat>, n: nat, c: Pos)
    requires WellFormed(g, rows, cols) && InBounds(rows, cols, c) && !At(g, c).visited
    requires Stamped(g, rows, cols, tm, n)
    requires g1 == SetVisited(g, c) && tm1 == tm[c := n]
    ensures WellFormed(g1, rows, cols) && VisitsOnly(g, g1, rows, cols, c) && FlagsOnly(g, g1, rows, cols)
    ensures At(g1, c).visited && c !in tm && |tm1.Keys| == |tm.Keys| + 1
    ensures Stamped(g1, rows, cols, tm1, n + 1)
  {
    SetVisitedEffect(g, rows, cols, c);
    assert c !in tm;
    StampNew(g, g1, rows, cols, tm, tm1, n, c);
  }

  /** Changing visited flags keeps the scores. */
  lemma ScoresAfterVisit(g: Grid, g1: Grid, rows: int, cols: int)
    requires WellFormed(g, rows, cols) && WellFormed(g1, rows, cols)
    requires FlagsOnly(g, g1, rows, cols) && Scored(g, rows, cols)
    ensures Scored(g1, rows, cols)
  {
    assert At(g1, Start) == At(g, Start).(visited := At(g1, Start).visited);
    forall p | InBounds(rows, cols, p) && p != Start && At(g1, p).parent.Some?
      ensures ScoreOk(g1, rows, cols, p)
    {
      assert At(g1, p) == At(g, p).(visited := At(g1, p).visited);
      assert ScoreOk(g, rows, cols, p);
      var u := At(g, p).parent.value;
      assert At(g1, u) == At(g, u).(visited := At(g1, u).visited);
    }
  }

  /** Stamping the newly visited cell keeps the stamps exact. */
  lemma StampNew(g: Grid, g1: Grid, rows: int, cols: int, tm: map<Pos, nat>, tm1: map<Pos, nat>, n: nat, c: Pos)
    requires WellFormed(g, rows, cols) && WellFormed(g1, rows, cols) && InBounds(rows, cols, c)
    requires VisitsOnly(g, g1, rows, cols, c)
    requires Stamped(g, rows, cols, tm, n) && tm1 == tm[c := n]
    ensures Stamped(g1, rows, cols, tm1, n + 1)
  {
  }

  /** Marking a cell that is the start or has a parent keeps the links
      sound. */
  lemma LinksAfterVisit(g: Grid, g1: Grid, rows: int, cols: int, tm: map<Pos, nat>, tm1: map<Pos, nat>, n: nat, c: Pos)
    requires WellFormed(g, rows, cols) && WellFormed(g1, rows, cols) && InBounds(rows, cols, c)
    requires FlagsOnly(g, g1, rows, cols) && c !in tm
    requires Stamped(g, rows, cols, tm, n) && Linked(g, rows, cols, tm) && tm1 == tm[c := n]
    requires c == Start || At(g, c).parent.Some?
    ensures Linked(g1, rows, cols, tm1)
  {
    forall p | InBounds(rows, cols, p) && p != Start && At(g1, p).parent.Some?
      ensures LinkOk(g1, rows, cols, tm1, p)
    {
      assert At(g1, p) == At(g, p).(visited := At(g1, p).visited);
      assert LinkOk(g, rows, cols, tm, p);
      MoveOfSameWalls(g, g1, rows, cols, At(g, p).parent.value, p);
    }
    forall p | p in tm1 && InBounds(rows, cols, p) && p != Start
      ensures At(g1, p).parent.Some?
    {
      assert At(g1, p) == At(g, p).(visited := At(g1, p).visited);
    }
  }

  /** Linking the cells `ns` to a visited cell `c` from which each is one
      open move away keeps the links sound, provided none of them is
      visited. */
  lemma RelinkKeepsLinks(g: Grid, g2: Grid, rows: int, cols: int, tm: map<Pos, nat>, n: nat, c: Pos, ns: seq<Pos>)
    requires WellFormed(g, rows, cols) && WellFormed(g2, rows, cols) && Relinked(g, g2, rows, cols, c, ns)
    requires Stamped(g, rows, cols, tm, n) && Linked(g, rows, cols, tm) && c in tm
    requires forall q | q in ns :: q !in tm && Move(g, rows, cols, c, q)
    ensures Linked(g2, rows, cols, tm)
  {
    RelinkKeepsStamps(g, g2, rows, cols, tm, n, c, ns);
    forall p | InBounds(rows, cols, p) && p != Start && At(g2, p).parent.Some?
      ensures LinkOk(g2, rows, cols, tm, p)
    {
      if p in ns {
        MoveOfSameWalls(g, g2, rows, cols, c, p);
      } else {
        assert LinkOk(g, rows, cols, tm, p);
        MoveOfSameWalls(g, g2, rows, cols, At(g, p).parent.value, p);
      }
    }
  }

  /** Linking changes no visited flag, so the stamps stay exact. */
  lemma RelinkKeepsStamps(g: Grid, g2: Grid, rows: int, cols: int, tm: map<Pos, nat>, n: nat, c: Pos, ns: seq<Pos>)
    requires WellFormed(g, rows, cols) && WellFormed(g2, rows, cols) && Relinked(g, g2, rows, cols, c, ns)
    requires Stamped(g, rows, cols, tm, n)
    ensures Stamped(g2, rows, cols, tm, n)
    ensures forall p | InBounds(rows, cols, p) :: At(g2, p).visited == At(g, p).visited
  {
  }

  /** In bfs, the neighbours also get the g score of `c` plus one: the
      scores stay one more than the parent's. */
  lemma RelinkKeepsScores(g: Grid, g2: Grid, rows: int, cols: int, tm: map<Pos, nat>, c: Pos, ns: seq<Pos>)
    requires WellFormed(g, rows, cols) && WellFormed(g2, rows, cols) && Relinked(g, g2, rows, cols, c, ns)
    requires InBounds(rows, cols, c) && Scored(g, rows, cols) && Linked(g, rows, cols, tm)
    requires Start in tm && c in tm && forall q | q in ns :: q !in tm
    requires forall p | InBounds(rows, cols, p) ::
               At(g2, p).g == if p in ns then Plus(At(g, c).g, 1) else At(g, p).g
    ensures Scored(g2, rows, cols)
  {
    forall p | InBounds(rows, cols, p) && p != Start && At(g2, p).parent.Some?
      ensures ScoreOk(g2, rows, cols, p)
    {
      if p !in ns {
        assert ScoreOk(g, rows, cols, p);
        assert LinkOk(g, rows, cols, tm, p);
      }
    }
  }

  /** Expanding `c` (marked visited on the way from `g` to `g1`) by linking
      its accessible neighbours `ns` to it and putting them on what is left
      of the worklist, in some order, keeps the visited cells enclosed and
      every entry linked. `out` is the new worklist: the entries of `rest`
      and of `ns`. */
  lemma ExpandKeepsFrontier(g: Grid, g1: Grid, g2: Grid, rows: int, cols: int,
                            work: seq<Pos>, rest: seq<Pos>, c: Pos, ns: seq<Pos>, out: seq<Pos>)
    requires WellFormed(g, rows, cols) && WellFormed(g1, rows, cols) && WellFormed(g2, rows, cols)
    requires InBounds(rows, cols, c) && VisitsOnly(g, g1, rows, cols, c) && At(g1, c).visited
    requires FlagsOnly(g, g1, rows, cols) && Relinked(g1, g2, rows, cols, c, ns)
    requires ns == AccessibleNeighbors(g1, rows, cols, c)
    requires Enclosed(g, rows, cols, work) && Pending(g, rows, cols, work)
    requires forall q | q in work && q != c :: q in rest
    requires forall q | q in rest :: q in work
    requires forall q | q in out :: q in rest || q in ns
    requires forall q | q in rest || q in ns :: q in out
    ensures Enclosed(g2, rows, cols, out) && Pending(g2, rows, cols, out)
  {
    forall p, d | OpenMove(g2, rows, cols, p, d) && At(g2, p).visited && !At(g2, Step(p, d)).visited
      ensures Step(p, d) in out
    {
      assert At(g1, p) == At(g, p).(visited := At(g1, p).visited);
      if p == c {
        assert ForwardMove(g1, rows, cols, c, d);
      } else {
        assert Step(p, d) in work;
      }
    }
    forall q | q in out && InBounds(rows, cols, q) && q != Start
      ensures At(g2, q).parent.Some?
    {
      if q !in ns {
        assert q in work;
        assert At(g1, q) == At(g, q).(visited := At(g1, q).visited);
      }
    }
  }

  /** A cell visited before `c` is expanded keeps its parent and its g
      score: only unvisited neighbours are relinked. */
  lemma SettledKept(g: Grid, g1: Grid, g2: Grid, rows: int, cols: int, c: Pos, ns: seq<Pos>)
    requires WellFormed(g, rows, cols) && WellFormed(g1, rows, cols) && WellFormed(g2, rows, cols)
    requires InBounds(rows, cols, c) && FlagsOnly(g, g1, rows, cols) && VisitsOnly(g, g1, rows, cols, c)
    requires Relinked(g1, g2, rows, cols, c, ns) && forall q | q in ns :: InBounds(rows, cols, q) && !At(g1, q).visited
    requires forall p | InBounds(rows, cols, p) && p !in ns :: At(g2, p).g == At(g1, p).g
    ensures forall p | InBounds(rows, cols, p) && At(g, p).visited ::
              At(g2, p).visited && At(g2, p).parent == At(g, p).parent && At(g2, p).g == At(g, p).g
  {
    forall p | InBounds(rows, cols, p) && At(g, p).visited
      ensures At(g2, p).visited && At(g2, p).parent == At(g, p).parent && At(g2, p).g == At(g, p).g
    {
      assert At(g1, p) == At(g, p).(visited := At(g1, p).visited);
      assert p !in ns;
    }
  }

  /** What the loops of bfs and dfs keep on every grid. */
  ghost predicate SearchFrame(g0: Grid, g: Grid, rows: int, cols: int, queue: seq<Pos>, tm: map<Pos, nat>, n: nat) {
    && rows > 0 && cols > 0 && Layout(g0, g, rows, cols)
    && Stamped(g, rows, cols, tm, n) && InGrid(rows, cols, queue)
  }

  /** What the loop of bfs keeps on a reset grid: sound and scored links,
      every visited cell enclosed by the queue, the start visited once the
      first round is over, and the goal never visited. */
  ghost predicate BfsInv(g: Grid, rows: int, cols: int, queue: seq<Pos>, tm: map<Pos, nat>)
    requires WellFormed(g, rows, cols)
  {
    && Linked(g, rows, cols, tm) && Scored(g, rows, cols)
    && Pending(g, rows, cols, queue) && Enclosed(g, rows, cols, queue)
    && (Start in tm || queue == [Start])
    && InBounds(rows, cols, Goal(rows, cols)) && !At(g, Goal(rows, cols)).visited
  }

  /** Before the loop of bfs: the start scored 0 and queued. */
  lemma BfsStart(g0: Grid, g: Grid, rows: int, cols: int, tm: map<Pos, nat>)
    requires WellFormed(g0, rows, cols) && rows > 0 && cols > 0
    requires g == SetG(g0, Start, Fin(0)) && tm == InitialStamps(g0, rows, cols)
    ensures SearchFrame(g0, g, rows, cols, [Start], tm, 1)
    ensures GridCleared(g0) ==> BfsInv(g, rows, cols, [Start], tm)
  {
    UpdateEffect(g0, rows, cols, Start, At(g0, Start).(g := Fin(0)));
    forall p | InBounds(rows, cols, p)
      ensures SameFrame(At(g0, p), At(g, p)) && At(g, p).visited == At(g0, p).visited
      ensures At(g, p).parent == At(g0, p).parent
    {
    }
    if GridCleared(g0) {
      forall p | InBounds(rows, cols, p)
        ensures !At(g, p).visited && At(g, p).parent == None
      {
        assert SearchCleared(g0[p.0][p.1]);
      }
    }
  }

  /** A popped cell that is already visited is dropped. */
  lemma BfsSkip(g: Grid, rows: int, cols: int, queue: seq<Pos>, tm: map<Pos, nat>, n: nat, c: Pos)
    requires WellFormed(g, rows, cols) && Stamped(g, rows, cols, tm, n) && InGrid(rows, cols, queue)
    requires BfsInv(g, rows, cols, queue, tm) && |queue| > 0 && c == queue[0]
    requires InBounds(rows, cols, c) && At(g, c).visited
    ensures BfsInv(g, rows, cols, queue[1..], tm)
  {
    assert queue[0] in queue;
    forall p, d | OpenMove(g, rows, cols, p, d) && At(g, p).visited && !At(g, Step(p, d)).visited
      ensures Step(p, d) in queue[1..]
    {
      assert Step(p, d) in queue;
    }
  }

  /** The accessible neighbours of a cell are unvisited cells one open
      move away. */
  lemma AccessibleAreMoves(g: Grid, rows: int, cols: int, tm: map<Pos, nat>, n: nat, c: Pos, ns: seq<Pos>)
    requires WellFormed(g, rows, cols) && InBounds(rows, cols, c) && Stamped(g, rows, cols, tm, n)
    requires ns == AccessibleNeighbors(g, rows, cols, c)
    ensures forall q | q in ns :: InBounds(rows, cols, q) && !At(g, q).visited && q !in tm && Move(g, rows, cols, c, q)
  {
    forall q | q in ns
      ensures InBounds(rows, cols, q) && !At(g, q).visited && q !in tm && Move(g, rows, cols, c, q)
    {
      var d :| q == Step(c, d) && ForwardMove(g, rows, cols, c, d);
    }
  }

  /** A popped unvisited cell, marked visited, whose accessible neighbours
      are linked to it, scored and queued. */
  lemma BfsExpanded(g: Grid, g1: Grid, g2: Grid, rows: int, cols: int, queue: seq<Pos>,
                    tm: map<Pos, nat>, tm1: map<Pos, nat>, n: nat, c: Pos, ns: seq<Pos>)
    requires WellFormed(g, rows, cols) && WellFormed(g1, rows, cols) && WellFormed(g2, rows, cols)
    requires Stamped(g, rows, cols, tm, n) && InGrid(rows, cols, queue) && BfsInv(g, rows, cols, queue, tm)
    requires |queue| > 0 && c == queue[0] && c != Goal(rows, cols) && InBounds(rows, cols, c) && !At(g, c).visited
    requires VisitsOnly(g, g1, rows, cols, c) && FlagsOnly(g, g1, rows, cols) && At(g1, c).visited
    requires Stamped(g1, rows, cols, tm1, n + 1) && tm1 == tm[c := n] && c !in tm
    requires ns == AccessibleNeighbors(g1, rows, cols, c) && Relinked(g1, g2, rows, cols, c, ns)
    requires forall p | InBounds(rows, cols, p) ::
               At(g2, p).g == if p in ns then Plus(At(g1, c).g, 1) else At(g1, p).g
    ensures BfsInv(g2, rows, cols, queue[1..] + ns, tm1)
  {
    assert c in queue;
    LinksAfterVisit(g, g1, rows, cols, tm, tm1, n, c);
    ScoresAfterVisit(g, g1, rows, cols);
    AccessibleAreMoves(g1, rows, cols, tm1, n + 1, c, ns);
    RelinkKeepsLinks(g1, g2, rows, cols, tm1, n + 1, c, ns);
    RelinkKeepsScores(g1, g2, rows, cols, tm1, c, ns);
    ExpandKeepsFrontier(g, g1, g2, rows, cols, queue, queue[1..], c, ns, queue[1..] + ns);
    RelinkKeepsStamps(g1, g2, rows, cols, tm1, n + 1, c, ns);
  }

  /** What the loop of dfs keeps on a reset grid: sound links, every
      visited cell enclosed by the stack, the start visited once the first
      round is over, and the goal never visited. */
  ghost predicate DfsInv(g: Grid, rows: int, cols: int, stack: seq<Pos>, tm: map<Pos, nat>)
    requires WellFormed(g, rows, cols)
  {
    && Linked(g, rows, cols, tm)
    && Pending(g, rows, cols, stack) && Enclosed(g, rows, cols, stack)
    && (Start in tm || stack == [Start])
    && InBounds(rows, cols, Goal(rows, cols)) && !At(g, Goal(rows, cols)).visited
  }

  /** Before the loop of dfs: the start alone on the stack. */
  lemma DfsStart(g: Grid, rows: int, cols: int, tm: map<Pos, nat>)
    requires WellFormed(g, rows, cols) && rows > 0 && cols > 0
    requires tm == InitialStamps(g, rows, cols)
    ensures SearchFrame(g, g, rows, cols, [Start], tm, 1)
    ensures GridCleared(g) ==> DfsInv(g, rows, cols, [Start], tm)
  {
    if GridCleared(g) {
      forall p | InBounds(rows, cols, p)
        ensures !At(g, p).visited && At(g, p).parent == None
      {
        assert SearchCleared(g[p.0][p.1]);
      }
    }
  }

  /** The top `c` of the stack popped, visited unless it already was, its
      accessible neighbours `ns` linked to it and the stack turned into
      `out`, made of what was below `c` and of `ns`. */
  lemma DfsExpanded(g: Grid, g1: Grid, g2: Grid, rows: int, cols: int, stack: seq<Pos>, rest: seq<Pos>,
                    tm: map<Pos, nat>, tm1: map<Pos, nat>, n: nat, n1: nat, c: Pos, ns: seq<Pos>, out: seq<Pos>)
    requires WellFormed(g, rows, cols) && WellFormed(g1, rows, cols) && WellFormed(g2, rows, cols)
    requires Stamped(g, rows, cols, tm, n) && InGrid(rows, cols, stack) && DfsInv(g, rows, cols, stack, tm)
    requires stack == rest + [c] && InBounds(rows, cols, c)
    requires if At(g, c).visited then g1 == g && tm1 == tm && n1 == n
             else VisitsOnly(g, g1, rows, cols, c) && FlagsOnly(g, g1, rows, cols)
                  && tm1 == tm[c := n] && c !in tm && c != Goal(rows, cols)
    requires At(g1, c).visited && Stamped(g1, rows, cols, tm1, n1)
    requires ns == AccessibleNeighbors(g1, rows, cols, c) && Relinked(g1, g2, rows, cols, c, ns)
    requires forall q | q in out :: q in rest || q in ns
    requires forall q | q in rest || q in ns :: q in out
    ensures DfsInv(g2, rows, cols, out, tm1)
  {
    assert c in stack;
    if At(g, c).visited {
      assert VisitsOnly(g, g1, rows, cols, c);
      assert FlagsOnly(g, g1, rows, cols);
    } else {
      LinksAfterVisit(g, g1, rows, cols, tm, tm1, n, c);
    }
    AccessibleAreMoves(g1, rows, cols, tm1, n1, c, ns);
    RelinkKeepsLinks(g1, g2, rows, cols, tm1, n1, c, ns);
    ExpandKeepsFrontier(g, g1, g2, rows, cols, stack, rest, c, ns, out);
    RelinkKeepsStamps(g1, g2, rows, cols, tm1, n1, c, ns);
  }

  /** `s` back to front. */
  function Reversed<T>(s: seq<T>): (r: seq<T>)
    ensures |r| == |s| && forall k | 0 <= k < |s| :: r[k] == s[|s| - 1 - k]
  {
    if s == [] then [] else [s[|s| - 1]] + Reversed(s[..|s| - 1])
  }

  /** Reversing keeps the entries. */
  lemma ReversedMembers<T>(s: seq<T>)
    ensures forall x :: x in Reversed(s) <==> x in s
  {
    var r := Reversed(s);
    forall x | x in s
      ensures x in r
    {
      var k :| 0 <= k < |s| && s[k] == x;
      assert r[|s| - 1 - k] == x;
    }
  }

  /** Visited entries are counted on visited flags alone. */
  lemma {:induction false} VisitedEntriesOfSameFlags(g: Grid, g2: Grid, rows: int, cols: int, s: seq<Pos>)
    requires WellFormed(g, rows, cols) && WellFormed(g2, rows, cols) && InGrid(rows, cols, s)
    requires forall p | InBounds(rows, cols, p) :: At(g2, p).visited == At(g, p).visited
    ensures VisitedEntries(g2, rows, cols, s) == VisitedEntries(g, rows, cols, s)
    decreases |s|
  {
    if s != [] {
      assert s[|s| - 1] in s;
      VisitedEntriesOfSameFlags(g, g2, rows, cols, s[..|s| - 1]);
    }
  }

  /** Unvisited entries on top of a stack add nothing to its count. */
  lemma {:induction false} VisitedEntriesUnvisitedTop(g: Grid, rows: int, cols: int, s: seq<Pos>, t: seq<Pos>)
    requires WellFormed(g, rows, cols) && InGrid(rows, cols, s) && InGrid(rows, cols, t)
    requires forall q | q in t :: !At(g, q).visited
    ensures VisitedEntries(g, rows, cols, s + t) == VisitedEntries(g, rows, cols, s)
    decreases |t|
  {
    if t != [] {
      var x := t[|t| - 1];
      assert x in t;
      assert s + t == (s + t[..|t| - 1]) + [x];
      VisitedEntriesUnvisitedTop(g, rows, cols, s, t[..|t| - 1]);
      VisitedEntriesAppend(g, rows, cols, s + t[..|t| - 1], x);
    } else {
      assert s + t == s;
    }
  }

  /** Popping a visited entry and pushing unvisited ones drops the number
      of visited entries of the stack. */
  lemma RevisitShrinks(g: Grid, g2: Grid, rows: int, cols: int, stack: seq<Pos>, rest: seq<Pos>, ns: seq<Pos>,
                       stack2: seq<Pos>)
    requires WellFormed(g, rows, cols) && WellFormed(g2, rows, cols)
    requires InGrid(rows, cols, stack) && InGrid(rows, cols, rest) && InGrid(rows, cols, ns)
    requires forall p | InBounds(rows, cols, p) :: At(g2, p).visited == At(g, p).visited
    requires forall q | q in ns :: !At(g2, q).visited
    requires VisitedEntries(g, rows, cols, rest) < VisitedEntries(g, rows, cols, stack)
    requires stack2 == rest + Reversed(ns)
    ensures InGrid(rows, cols, stack2)
    ensures VisitedEntries(g2, rows, cols, stack2) < VisitedEntries(g, rows, cols, stack)
  {
    ReversedMembers(ns);
    VisitedEntriesOfSameFlags(g, g2, rows, cols, rest);
    VisitedEntriesUnvisitedTop(g2, rows, cols, rest, Reversed(ns));
  }
}
